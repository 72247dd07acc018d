/** The dotted-key lookup shared by the two message stores (src/Message/MessageStore.php
    and src/Translation/MessageStore.php): a key such as "validation.secret_empty" is
    cut at every '.', and the segments name one entry per level of a nested array.

    This module holds the reference definitions the stores' loops are proved against:
    `Explode` (PHP's `explode('.', $key)`), `Walk` (the descent), `Lookup` (the message a
    key names) and `Fallback` (the text returned for any other key). */
module MessageLookup {
  import opened Results
  import opened PhpStrings

  /** A value of the messages array: a message, a nested array, PHP's `null`, or
      anything else (an int, a float, an object). */
  datatype MessageValue =
    | Null
    | Text(text: string)
    | Group(entries: map<string, MessageValue>)
    | Other

  /** `DEFAULT_MESSAGE`. */
  const DefaultMessage: string := "Message not found"

  /** `self::DEFAULT_MESSAGE . ': ' . $key`. */
  function Fallback(key: string): (r: string)
    ensures r == DefaultMessage + ": " + key
    ensures |r| == |key| + 19 && r[19..] == key
  {
    DefaultMessage + ": " + key
  }

  // ---------------------------------------------------------------------------
  // Segments

  predicate NoDot(s: string)
  {
    forall i :: 0 <= i < |s| ==> s[i] != '.'
  }

  /** `explode('.', $key)`: the texts between the dots, in order. There is always at
      least one segment; the empty key is the one empty segment. */
  function Explode(key: string): (segments: seq<string>)
    ensures |segments| >= 1
    ensures forall i :: 0 <= i < |segments| ==> NoDot(segments[i])
    decreases |key|
  {
    match StrPos(key, '.')
    case None => [key]
    case Some(i) => [key[..i]] + Explode(key[i + 1..])
  }

  /** `implode('.', $segments)`: the inverse of `Explode`. */
  function Join(segments: seq<string>): (key: string)
    requires |segments| >= 1
  {
    if |segments| == 1 then segments[0] else segments[0] + "." + Join(segments[1..])
  }

  /** Joining the segments of a key gives the key back. */
  lemma {:induction false} JoinExplode(key: string)
    ensures Join(Explode(key)) == key
    decreases |key|
  {
    match StrPos(key, '.')
    case None =>
    case Some(i) =>
      JoinExplode(key[i + 1..]);
      SplitAround(key, i);
  }

  /** Cutting a key made of dot-free segments gives those segments back. */
  lemma {:induction false} ExplodeJoin(segments: seq<string>)
    requires |segments| >= 1
    requires forall i :: 0 <= i < |segments| ==> NoDot(segments[i])
    ensures Explode(Join(segments)) == segments
  {
    var first := segments[0];
    if |segments| == 1 {
      assert StrPos(first, '.').None?;
    } else {
      var rest := Join(segments[1..]);
      var key := first + "." + rest;
      assert key[|first|] == '.';
      assert forall j :: 0 <= j < |first| ==> key[j] == first[j];
      assert StrPos(key, '.') == Some(|first|);
      assert key[..|first|] == first;
      assert key[|first| + 1..] == rest;
      ExplodeJoin(segments[1..]);
      assert [first] + segments[1..] == segments;
    }
  }

  // ---------------------------------------------------------------------------
  // Descent

  /** The value reached from `value` by following `segments`: `Null` as soon as the
      current value is not an array or lacks the next segment. */
  function Walk(value: MessageValue, segments: seq<string>): (r: MessageValue)
  {
    if segments == [] then value
    else if value.Group? && segments[0] in value.entries then Walk(value.entries[segments[0]], segments[1..])
    else Null
  }

  /** Walking a path is walking its first part, then the rest from where that ends; a
      walk that has failed stays failed. */
  lemma {:induction false} WalkAppend(value: MessageValue, a: seq<string>, b: seq<string>)
    ensures Walk(value, a + b) == Walk(Walk(value, a), b)
  {
    if a == [] {
      assert a + b == b;
    } else {
      assert (a + b)[0] == a[0];
      assert (a + b)[1..] == a[1..] + b;
      if value.Group? && a[0] in value.entries {
        WalkAppend(value.entries[a[0]], a[1..], b);
      } else {
        WalkFromNull(b);
      }
    }
  }

  lemma WalkFromNull(segments: seq<string>)
    ensures Walk(Null, segments) == Null
  {
  }

  /** The message the dotted key names in the array `messages`, if the walk ends on a
      string. */
  function Lookup(messages: map<string, MessageValue>, key: string): (r: Option<string>)
    ensures r.Some? <==> Walk(Group(messages), Explode(key)).Text?
    ensures r.Some? ==> r.value == Walk(Group(messages), Explode(key)).text
  {
    match Walk(Group(messages), Explode(key))
    case Text(s) => Some(s)
    case _ => None
  }

  /** A key "a.b" names the string stored under `b` in the array stored under `a`. */
  lemma LookupTwoLevels(messages: map<string, MessageValue>, a: string, b: string)
    requires NoDot(a) && NoDot(b)
    ensures Lookup(messages, a + "." + b) ==
              if a in messages && messages[a].Group? && b in messages[a].entries && messages[a].entries[b].Text?
              then Some(messages[a].entries[b].text) else None
  {
    ExplodeJoin([a, b]);
    assert Join([a, b]) == a + "." + b;
    assert [a, b][1..] == [b] && [b][1..] == [];
    var reached := Walk(Group(messages), [a, b]);
    if a in messages {
      assert reached == Walk(messages[a], [b]);
      if messages[a].Group? && b in messages[a].entries {
        assert reached == messages[a].entries[b];
      } else {
        assert reached == Null;
      }
    } else {
      assert reached == Null;
    }
  }

  /** A key naming a nested array, such as "validation", names no message. */
  lemma LookupOfGroup(messages: map<string, MessageValue>, key: string, entries: map<string, MessageValue>)
    requires NoDot(key) && key in messages && messages[key] == Group(entries)
    ensures Lookup(messages, key) == None
  {
    ExplodeJoin([key]);
    assert [key][1..] == [];
    assert Walk(Group(messages), [key]) == Walk(Group(entries), []);
  }

  /** The empty key is one empty segment: it names a message only when the top level
      stores a string under the empty key. */
  lemma LookupEmptyKey(messages: map<string, MessageValue>)
    ensures Lookup(messages, "") ==
              if "" in messages && messages[""].Text? then Some(messages[""].text) else None
  {
    assert Explode("") == [""];
    assert [""][1..] == [];
    if "" in messages {
      assert Walk(Group(messages), [""]) == Walk(messages[""], []);
    }
  }

  /** Extending a key that names a message with another segment names nothing: a string
      has no entries. */
  lemma LookupBelowText(messages: map<string, MessageValue>, key: string, segment: string)
    requires Lookup(messages, key).Some? && NoDot(segment)
    ensures Lookup(messages, key + "." + segment) == None
  {
    var path := Explode(key);
    JoinExplode(key);
    ExplodeJoin(path + [segment]);
    JoinAppend(path, segment);
    WalkAppend(Group(messages), path, [segment]);
  }

  /** Answering true for a key does not make its message differ from the fallback text:
      a store may hold exactly that text under the key. */
  lemma StoredTextMayReadAsFallback()
    ensures Lookup(map["k" := Text(Fallback("k"))], "k") == Some(Fallback("k"))
  {
    assert StrPos("k", '.').None?;
    assert Explode("k") == ["k"];
    assert ["k"][1..] == [];
  }

  lemma {:induction false} JoinAppend(segments: seq<string>, segment: string)
    requires |segments| >= 1
    ensures Join(segments + [segment]) == Join(segments) + "." + segment
  {
    if |segments| > 1 {
      assert (segments + [segment])[1..] == segments[1..] + [segment];
      JoinAppend(segments[1..], segment);
    } else {
      assert (segments + [segment])[1..] == [segment];
    }
  }

  // ---------------------------------------------------------------------------
  // Formatting

  /** An argument of `sprintf`. */
  datatype FormatArg = IntArg(i: int) | StrArg(s: string)

  /** `sprintf`, which the stores call for a message with parameters. Its directive
      language is not part of this model; the one property used is that a format with no
      '%' is returned unchanged, whatever the arguments. */
  type Formatter = f: (string, seq<FormatArg>) -> string
    | forall format, args :: '%' !in format ==> f(format, args) == format
    witness (format: string, args: seq<FormatArg>) => format

  /** `get`'s last line: the message itself without parameters, `sprintf` of it with. */
  function Format(sprintf: Formatter, message: string, params: seq<FormatArg>): (r: string)
    ensures params == [] ==> r == message
    ensures '%' !in message ==> r == message
  {
    if params == [] then message else sprintf(message, params)
  }

  /** The fallback text of a key without '%' comes back unchanged even when `get` is given
      parameters. */
  lemma FallbackWithParams(sprintf: Formatter, key: string, params: seq<FormatArg>)
    requires '%' !in key
    ensures Format(sprintf, Fallback(key), params) == Fallback(key)
  {
    var r := Fallback(key);
    assert forall i :: 0 <= i < 19 ==> r[i] == (DefaultMessage + ": ")[i];
    assert forall i :: 19 <= i < |r| ==> r[i] == key[i - 19];
  }
}
