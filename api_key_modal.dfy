/**
 * The API-key dialog: the key typed so far, the error shown under the
 * input, and what saving does with the key.
 */
module ApiKeyModal {
  import opened Wrappers
  import opened JsStrings

  const EmptyKeyError: string := "Please enter an API key"
  const PrefixError: string := "API key should start with \"sk-\""
  const KeyPrefix: string := "sk-"

  /** What saving decides: an error message, or the key to store. */
  datatype Verdict = Refused(message: string) | Stored(key: string)

  /**
   * `handleSave`'s checks, in order: a blank key is refused first, then a
   * key that does not start with `sk-` before trimming; otherwise the
   * trimmed key is stored.
   */
  function Validate(apiKey: string): (v: Verdict)
    ensures v == Refused(EmptyKeyError) <==> AllWhiteSpace(apiKey)
    ensures v == Refused(PrefixError) <==> !AllWhiteSpace(apiKey) && !(KeyPrefix <= apiKey)
    ensures v.Stored? <==> !AllWhiteSpace(apiKey) && KeyPrefix <= apiKey
    ensures v.Stored? ==> v.key == Trim(apiKey)
  {
    if Trim(apiKey) == "" then Refused(EmptyKeyError)
    else if !(KeyPrefix <= apiKey) then Refused(PrefixError)
    else Stored(Trim(apiKey))
  }

  /** A stored key starts with `sk-` and has no white space at either end. */
  lemma StoredKeyShape(apiKey: string)
    requires Validate(apiKey).Stored?
    ensures var k := Validate(apiKey).key;
      KeyPrefix <= k && !IsWhiteSpace(k[0]) && !IsWhiteSpace(k[|k| - 1])
  {
    var t := TrimStart(apiKey);
    assert !IsWhiteSpace(apiKey[0]);
    assert t == apiKey;
    var k := TrimEnd(t);
    assert !IsWhiteSpace(t[2]);
    assert |k| >= 3;
    assert k[..3] == t[..3];
  }

  /** White space before `sk-` is refused with the prefix error: the prefix is checked before trimming. */
  lemma LeadingSpaceRefused(apiKey: string)
    requires |apiKey| > 0 && IsWhiteSpace(apiKey[0]) && KeyPrefix <= Trim(apiKey)
    ensures Validate(apiKey) == Refused(PrefixError)
  {
    assert !AllWhiteSpace(apiKey) by {
      assert Trim(apiKey)[0] == 's';
    }
  }

  /** What the dialog tells its parent. */
  datatype Event = Saved(key: string) | Closed

  class Dialog {
    var apiKey: string
    var error: string
    /** What `setStoredApiKey` last wrote, if anything. */
    var storedKey: Option<string>
    /** The calls of `onSave` and `onClose`, in order. */
    var events: seq<Event>

    constructor(stored: Option<string>)
      ensures apiKey == "" && error == "" && storedKey == stored && events == []
    {
      apiKey := "";
      error := "";
      storedKey := stored;
      events := [];
    }

    /** `handleSave`. */
    method HandleSave()
      modifies this
      ensures apiKey == old(apiKey)
      ensures Validate(apiKey).Refused? ==>
        error == Validate(apiKey).message && storedKey == old(storedKey) && events == old(events)
      ensures Validate(apiKey).Stored? ==>
        var k := Validate(apiKey).key;
        error == "" && storedKey == Some(k) && events == old(events) + [Saved(k), Closed]
    {
      match Validate(apiKey) {
        case Refused(message) =>
          error := message;
        case Stored(key) =>
          storedKey := Some(key);
          events := events + [Saved(key)];
          error := "";
          events := events + [Closed];
      }
    }

    /** `handleKeyDown`: Enter saves, Escape closes, any other key does nothing. */
    method HandleKeyDown(key: string)
      modifies this
      ensures apiKey == old(apiKey)
      ensures key == "Enter" && Validate(apiKey).Refused? ==>
        error == Validate(apiKey).message && storedKey == old(storedKey) && events == old(events)
      ensures key == "Enter" && Validate(apiKey).Stored? ==>
        error == "" && storedKey == Some(Validate(apiKey).key) && events == old(events) + [Saved(Validate(apiKey).key), Closed]
      ensures key == "Escape" ==> error == old(error) && storedKey == old(storedKey) && events == old(events) + [Closed]
      ensures key != "Enter" && key != "Escape" ==> error == old(error) && storedKey == old(storedKey) && events == old(events)
    {
      if key == "Enter" {
        HandleSave();
      } else if key == "Escape" {
        events := events + [Closed];
      }
    }

    /** The input's `onChange`: the new text is taken and any error is cleared. */
    method OnChange(value: string)
      modifies this
      ensures apiKey == value && error == ""
      ensures storedKey == old(storedKey) && events == old(events)
    {
      apiKey := value;
      error := "";
    }
  }
}
