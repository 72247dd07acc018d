/** The message store of src/Message/MessageStore.php. Its static `$messages` cache is
    the field `messages` of an object; the array the messages file returns is the
    parameter `file` of the calls that may load it. */
module Message {
  import opened Results
  import opened MessageLookup

  class MessageStore {
    /** `self::$messages`: empty until loaded. */
    var messages: map<string, MessageValue>

    /** The cache starts empty. */
    constructor()
      ensures messages == map[]
    {
      messages := map[];
    }

    /** `loadMessages`: the file's array is taken only while the cache is empty; a loaded
        cache is never replaced. */
    method LoadMessages(file: map<string, MessageValue>)
      modifies this
      ensures messages == if old(messages) == map[] then file else old(messages)
    {
      if messages == map[] {
        messages := file;
      }
    }

    /** `traverseNestedArray`: the segments of the key in turn, descending one level
        each; `Null` as soon as the current value is not an array or lacks the segment.
        The result is the reference descent `Walk`. */
    static method TraverseNestedArray(root: map<string, MessageValue>, pathKey: string)
      returns (value: MessageValue)
      ensures value == Walk(Group(root), Explode(pathKey))
    {
      var keys := Explode(pathKey);
      value := Group(root);
      for i := 0 to |keys|
        invariant Walk(Group(root), keys) == Walk(value, keys[i..])
      {
        assert keys[i..][0] == keys[i] && keys[i..][1..] == keys[i + 1..];
        if !value.Group? || keys[i] !in value.entries {
          return Null;
        }
        value := value.entries[keys[i]];
      }
    }

    /** `getNestedValue`: the message the key names, or the fallback text when the walk
        ends anywhere but on a string. */
    static method GetNestedValue(root: map<string, MessageValue>, key: string) returns (message: string)
      ensures Lookup(root, key).Some? ==> message == Lookup(root, key).value
      ensures Lookup(root, key).None? ==> message == Fallback(key)
    {
      var value := TraverseNestedArray(root, key);
      if value == Null {
        return Fallback(key);
      }
      message := if value.Text? then value.text else Fallback(key);
    }

    /** `keyExists`: whether the key names a message. */
    static method KeyExists(root: map<string, MessageValue>, key: string) returns (found: bool)
      ensures found <==> Lookup(root, key).Some?
    {
      var value := TraverseNestedArray(root, key);
      found := value.Text?;
    }

    /** `has`: loads the cache, then whether the key names a message in it. */
    method Has(file: map<string, MessageValue>, key: string) returns (found: bool)
      modifies this
      ensures messages == if old(messages) == map[] then file else old(messages)
      ensures found <==> Lookup(messages, key).Some?
    {
      LoadMessages(file);
      found := KeyExists(messages, key);
    }

    /** `get`: loads the cache, then the message the key names, or the fallback text;
        with parameters, formatted by `sprintf`. */
    method Get(file: map<string, MessageValue>, key: string, params: seq<FormatArg>, sprintf: Formatter)
      returns (message: string)
      modifies this
      ensures messages == if old(messages) == map[] then file else old(messages)
      ensures Lookup(messages, key).Some? ==> message == Format(sprintf, Lookup(messages, key).value, params)
      ensures Lookup(messages, key).None? ==> message == Format(sprintf, Fallback(key), params)
      ensures params == [] ==> message == if Lookup(messages, key).Some? then Lookup(messages, key).value else Fallback(key)
    {
      LoadMessages(file);
      var nested := GetNestedValue(messages, key);
      message := Format(sprintf, nested, params);
    }
  }
}
