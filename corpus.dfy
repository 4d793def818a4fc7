/**
 * The three corpus buttons: which corpus a click loads and which button is highlighted
 * afterwards.
 */
module Corpus {
  import opened Options

  /** The corpus names; they name the data files and label the buttons. */
  const CorpusA: string := "Hosea"
  const CorpusB: string := "Jonah"
  const CorpusC: string := "Luke"

  datatype Button = ButtonA | ButtonB | ButtonC

  /** Position of a button in the button group. */
  function Position(b: Button): nat {
    match b
    case ButtonA => 0
    case ButtonB => 1
    case ButtonC => 2
  }

  /** The label a button carries: its corpus name. */
  function Label(b: Button): string {
    match b
    case ButtonA => CorpusA
    case ButtonB => CorpusB
    case ButtonC => CorpusC
  }

  /** `this.id ? window[this.id] : corpusA`. The empty id stands for "no id": the handler
      called directly rather than by a button. A button id names the global that holds its
      corpus; any other id names no corpus. */
  function CorpusFor(id: string): (c: Option<string>)
    ensures id == "" || id == "corpusA" ==> c == Some(CorpusA)
    ensures id == "corpusB" ==> c == Some(CorpusB)
    ensures id == "corpusC" ==> c == Some(CorpusC)
    ensures c.Some? <==> id == "" || id == "corpusA" || id == "corpusB" || id == "corpusC"
  {
    if id == "" then Some(CorpusA)
    else if id == "corpusA" then Some(CorpusA)
    else if id == "corpusB" then Some(CorpusB)
    else if id == "corpusC" then Some(CorpusC)
    else None
  }

  /** The button that gets `btn-primary`: B or C when their id was clicked, A otherwise. */
  function ButtonFor(id: string): (b: Button)
    ensures b == ButtonB <==> id == "corpusB"
    ensures b == ButtonC <==> id == "corpusC"
    ensures b == ButtonA <==> id != "corpusB" && id != "corpusC"
  {
    if id == "corpusB" then ButtonB else if id == "corpusC" then ButtonC else ButtonA
  }

  /** Which of the three buttons carry `btn-primary` after the click: all are cleared, then
      one is set. */
  function Highlight(id: string): (r: seq<bool>)
    ensures |r| == 3
    ensures forall k :: 0 <= k < 3 ==> (r[k] <==> k == Position(ButtonFor(id)))
  {
    [false, false, false][Position(ButtonFor(id)) := true]
  }

  /** Exactly one corpus button is highlighted. */
  lemma ExactlyOneHighlighted(id: string)
    ensures |set k | 0 <= k < 3 && Highlight(id)[k]| == 1
  {
    var p := Position(ButtonFor(id));
    assert (set k | 0 <= k < 3 && Highlight(id)[k]) == {p};
  }

  /** Whenever a corpus is loaded, the highlighted button is the one labelled with it. */
  lemma HighlightNamesLoadedCorpus(id: string)
    requires CorpusFor(id).Some?
    ensures Label(ButtonFor(id)) == CorpusFor(id).value
  {
  }
}
