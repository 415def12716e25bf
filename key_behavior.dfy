// A behavior that watches the "key" entry of its input and turns changes of the pressed key
// into key-up and key-down notifications, together with the table of registered keys shared
// by all such behaviors.
module KeyBehaviors {
  import opened Wrappers

  /** A key code: the NONE code (no key pressed) or the code of a key. */
  datatype KeyCode = NoKey | Key(code: int)

  /** A notification: onKeyUp or onKeyDown with its key. */
  datatype Notification = KeyUp(key: KeyCode) | KeyDown(key: KeyCode)

  /** The notifications for a new reading key after last: none when the key did not change,
      else the release of the last key unless it was NONE, then the press of the new key unless
      it is NONE. */
  function Transition(last: KeyCode, key: KeyCode): (r: seq<Notification>)
    ensures |r| <= 2
  {
    if key == last then []
    else (if last != NoKey then [KeyUp(last)] else []) + (if key != NoKey then [KeyDown(key)] else [])
  }

  /** The key a sequence of notifications leaves pressed. */
  function Held(log: seq<Notification>): KeyCode {
    if log == [] then NoKey
    else match log[|log| - 1]
      case KeyDown(k) => k
      case KeyUp(_) => NoKey
  }

  /** Every release is of the key pressed at that point, every press comes when no key is
      pressed, and NONE is never pressed nor released. */
  predicate Bracketed(log: seq<Notification>) {
    log == [] ||
    (Bracketed(log[..|log| - 1]) &&
     match log[|log| - 1]
       case KeyDown(k) => k != NoKey && Held(log[..|log| - 1]) == NoKey
       case KeyUp(k) => k != NoKey && Held(log[..|log| - 1]) == k)
  }

  /** One more notification: the log stays bracketed exactly when it fits the pressed key. */
  lemma Extend(log: seq<Notification>, n: Notification)
    ensures Bracketed(log + [n]) <==> Bracketed(log) && match n
                                        case KeyDown(k) => k != NoKey && Held(log) == NoKey
                                        case KeyUp(k) => k != NoKey && Held(log) == k
    ensures Held(log + [n]) == if n.KeyDown? then n.key else NoKey
  {
    assert (log + [n])[..|log + [n]| - 1] == log;
  }

  /** The notifications for a change of key keep the log bracketed, and afterwards the pressed
      key is the new key. */
  lemma TransitionBracketed(log: seq<Notification>, key: KeyCode)
    requires Bracketed(log)
    ensures Bracketed(log + Transition(Held(log), key))
    ensures Held(log + Transition(Held(log), key)) == key
  {
    var last := Held(log);
    if key != last {
      var mid := log + if last != NoKey then [KeyUp(last)] else [];
      if last != NoKey {
        Extend(log, KeyUp(last));
      } else {
        assert mid == log;
      }
      if key != NoKey {
        Extend(mid, KeyDown(key));
        assert log + Transition(last, key) == mid + [KeyDown(key)];
      } else {
        assert log + Transition(last, key) == mid;
      }
    } else {
      assert log + Transition(last, key) == log;
    }
  }

  /** Reading the same key again notifies nothing; a change notifies at least once. */
  lemma TransitionQuiet(last: KeyCode, key: KeyCode)
    ensures Transition(last, key) == [] <==> key == last
  {
  }

  /** KeyBehavior: the last key read and the notifications made so far. */
  class KeyBehavior {
    var lastKey: KeyCode
    var notifications: seq<Notification>

    /** The last key is the one the notifications leave pressed, and they are bracketed. */
    ghost predicate Valid()
      reads this
    {
      Bracketed(notifications) && Held(notifications) == lastKey
    }

    /** A new behavior has read no key. */
    constructor ()
      ensures Valid() && lastKey == NoKey && notifications == []
    {
      lastKey := NoKey;
      notifications := [];
    }

    /** update: with no "key" entry in the input nothing changes; otherwise the change of key
        is notified and the key becomes the last key. */
    method Update(reading: Option<KeyCode>)
      requires Valid()
      modifies this
      ensures Valid()
      ensures reading.None? ==> lastKey == old(lastKey) && notifications == old(notifications)
      ensures reading.Some? ==> lastKey == reading.value
                                && notifications == old(notifications) + Transition(old(lastKey), reading.value)
    {
      if reading.Some? {
        var key := reading.value;
        TransitionBracketed(notifications, key);
        ghost var expected := notifications + Transition(lastKey, key);
        if key != lastKey {
          if lastKey != NoKey {
            notifications := notifications + [KeyUp(lastKey)];
          }
          if key != NoKey {
            notifications := notifications + [KeyDown(key)];
          }
        }
        assert notifications == expected;
        lastKey := key;
      }
    }
  }

  /** The table of registered keys and their descriptions, shared by all key behaviors. */
  class KeyMap {
    var keys: map<KeyCode, string>

    /** NONE is never registered. */
    ghost predicate Valid()
      reads this
    {
      NoKey !in keys
    }

    constructor ()
      ensures Valid() && keys == map[]
    {
      keys := map[];
    }

    /** registerKey: NONE and an already registered key are refused and leave the table as it
        was; any other key is registered with its description. */
    method RegisterKey(key: KeyCode, description: string) returns (result: bool)
      requires Valid()
      modifies this
      ensures Valid()
      ensures result <==> key != NoKey && key !in old(keys)
      ensures keys == if result then old(keys)[key := description] else old(keys)
    {
      if key == NoKey {
        return false;
      }
      result := false;
      if key !in keys {
        keys := keys[key := description];
        result := true;
      }
    }

    /** unregisterKey: true exactly when the key was registered; it is then removed. */
    method UnregisterKey(key: KeyCode) returns (result: bool)
      requires Valid()
      modifies this
      ensures Valid()
      ensures result <==> key in old(keys)
      ensures keys == old(keys) - {key}
    {
      result := false;
      if key in keys {
        keys := keys - {key};
        result := true;
      }
    }

    /** clearKeyMap: no key stays registered. */
    method ClearKeyMap()
      modifies this
      ensures Valid() && keys == map[]
    {
      keys := map[];
    }
  }

  /** Registering a key that was free and then unregistering it gives back the table. */
  lemma RegisterThenUnregister(keys: map<KeyCode, string>, key: KeyCode, description: string)
    requires key !in keys
    ensures keys[key := description] - {key} == keys
  {
  }
}
