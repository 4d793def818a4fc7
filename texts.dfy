/**
 * The text list of the sidebar: the records of the texts file and the filter that picks
 * the texts mentioning the selected topic.
 */
module Texts {
  import opened Options

  /** One record of the texts file. `found` maps each topic the text mentions to what the
      offline process stored for it; a record may lack the field altogether. */
  datatype TextRecord = TextRecord(id: string, htmlCard: string, found: Option<map<string, int>>)

  /** The names every plain object answers through `Object.prototype`, whatever its keys. */
  const ObjectMembers: set<string> := {
    "constructor", "hasOwnProperty", "isPrototypeOf", "propertyIsEnumerable",
    "toLocaleString", "toString", "valueOf", "__proto__",
    "__defineGetter__", "__defineSetter__", "__lookupGetter__", "__lookupSetter__"
  }

  /** `typeof(text["found"][topic]) != "undefined"` for a record that has `found`: the topic
      is a key of the map (JSON holds no undefined values), or a name the object inherits. */
  predicate Mentions(text: TextRecord, topic: string) {
    text.found.Some? && (topic in text.found.value || topic in ObjectMembers)
  }

  predicate AllHaveFound(texts: seq<TextRecord>) {
    forall i :: 0 <= i < |texts| ==> texts[i].found.Some?
  }

  /** `allTextsData.filter(...)` once every record has a `found` map: the texts that mention
      the topic, as often as they occur in the file. */
  function Matching(texts: seq<TextRecord>, topic: string): (r: seq<TextRecord>)
    requires AllHaveFound(texts)
    ensures forall t :: multiset(r)[t] == if Mentions(t, topic) then multiset(texts)[t] else 0
    ensures |r| <= |texts|
  {
    if texts == [] then []
    else
      assert texts == [texts[0]] + texts[1..];
      var rest := Matching(texts[1..], topic);
      if Mentions(texts[0], topic) then [texts[0]] + rest else rest
  }

  /** What the sidebar filter yields: nothing when the texts file has not arrived yet
      (`allTextsData` undefined) or when some record lacks `found`, since either makes the
      filter throw; otherwise the texts that mention the topic. */
  function SelectTexts(texts: Option<seq<TextRecord>>, topic: string): (r: Option<seq<TextRecord>>)
    ensures r.None? <==> texts.None? || exists i :: 0 <= i < |texts.value| && texts.value[i].found.None?
    ensures r.Some? ==> forall t :: t in r.value <==> t in texts.value && Mentions(t, topic)
  {
    if texts.None? || !AllHaveFound(texts.value) then None
    else
      var r := Matching(texts.value, topic);
      assert forall t :: t in r <==> t in texts.value && Mentions(t, topic) by {
        forall t ensures t in r <==> t in texts.value && Mentions(t, topic) {
          assert t in r <==> multiset(r)[t] > 0;
          assert t in texts.value <==> multiset(texts.value)[t] > 0;
        }
      }
      Some(r)
  }

  /** A topic named like an inherited member, `toString` say, is found in every text: the
      filter keeps the whole file, in order. */
  lemma {:induction false} ObjectMemberNamesMatchAll(texts: seq<TextRecord>, topic: string)
    requires AllHaveFound(texts) && topic in ObjectMembers
    ensures Matching(texts, topic) == texts
  {
    if texts != [] {
      ObjectMemberNamesMatchAll(texts[1..], topic);
      assert texts == [texts[0]] + texts[1..];
    }
  }

  /** The text that `#topicName` shows for a selected topic; the topic can be read back
      from between the quotes. */
  function TopicLabel(topic: string): (r: string)
    ensures |r| == |topic| + 9 && r[..8] == "Topic: '" && r[|r| - 1] == '\''
    ensures r[8..|r| - 1] == topic
  {
    "Topic: '" + topic + "'"
  }
}
