/** The list of short-lived terminal keys, compacted in place (internal/lifecycle/service.go). */
module TerminalKeys {
  import opened Model
  import opened Text

  datatype Key = Key(vmId: Id, user: string, publicKey: string, expiresAt: int)

  /** What happened to the list, in the order of the lock. */
  datatype Event = Registered(key: Key) | CleanedUp(vmId: Id, user: string, publicKey: string) | Listed(now: int)

  // ---------------------------------------------------------------------------------------------
  // Filters

  function NotExpired(now: int): Key -> bool {
    (k: Key) => k.expiresAt > now
  }

  function OtherThan(vmId: Id, user: string, publicKey: string): Key -> bool {
    (k: Key) => !(k.vmId == vmId && k.user == user && k.publicKey == publicKey)
  }

  function For(vmId: Id, user: string): Key -> bool {
    (k: Key) => k.vmId == vmId && k.user == user
  }

  lemma FilterTests(key: Key, vmId: Id, user: string, now: int)
    ensures NotExpired(now)(key) <==> key.expiresAt > now
    ensures For(vmId, user)(key) <==> key.vmId == vmId && key.user == user
  {
  }

  function PublicKeys(keys: seq<Key>): seq<string> {
    seq(|keys|, i requires 0 <= i < |keys| => keys[i].publicKey)
  }

  lemma {:induction false} FilterSnoc(s: seq<Key>, x: Key, keep: Key -> bool)
    ensures Filter(s + [x], keep) == Filter(s, keep) + if keep(x) then [x] else []
  {
    if s != [] {
      assert (s + [x])[1..] == s[1..] + [x];
      FilterSnoc(s[1..], x, keep);
    }
  }

  /** The texts of the keys that pass both filters. */
  function Picked(s: seq<Key>, keep: Key -> bool, mine: Key -> bool): seq<string> {
    PublicKeys(Filter(Filter(s, keep), mine))
  }

  lemma PublicKeysSnoc(keys: seq<Key>, key: Key)
    ensures PublicKeys(keys + [key]) == PublicKeys(keys) + [key.publicKey]
    ensures PublicKeys(keys + []) == PublicKeys(keys) + []
  {
    assert keys + [] == keys;
  }

  lemma PickedSnoc(s: seq<Key>, x: Key, keep: Key -> bool, mine: Key -> bool)
    ensures Picked([], keep, mine) == []
    ensures Picked(s + [x], keep, mine) == Picked(s, keep, mine) + if keep(x) && mine(x) then [x.publicKey] else []
  {
    assert Picked([], keep, mine) == [];
    hide Filter, PublicKeys;
    FilterSnoc(s, x, keep);
    var kept := Filter(s, keep);
    if keep(x) {
      FilterSnoc(kept, x, mine);
      PublicKeysSnoc(Filter(kept, mine), x);
    } else {
      assert kept + [] == kept;
      var picked := PublicKeys(Filter(kept, mine));
      assert picked + [] == picked;
    }
  }

  lemma {:induction false} FiltersCommute(s: seq<Key>, p: Key -> bool, q: Key -> bool)
    ensures Filter(Filter(s, p), q) == Filter(Filter(s, q), p)
  {
    if s != [] {
      FiltersCommute(s[1..], p, q);
      FilterHead(s, p, q);
      FilterHead(s, q, p);
    }
  }

  lemma FilterHead(s: seq<Key>, p: Key -> bool, q: Key -> bool)
    requires s != []
    ensures Filter(Filter(s, p), q) == (if p(s[0]) && q(s[0]) then [s[0]] else []) + Filter(Filter(s[1..], p), q)
  {
    var rest := Filter(s[1..], p);
    if p(s[0]) {
      assert Filter(s, p) == [s[0]] + rest;
      assert ([s[0]] + rest)[1..] == rest;
    } else {
      assert Filter(s, p) == rest;
    }
  }

  // ---------------------------------------------------------------------------------------------
  // What the list should mean

  /** The list as the operations change it. */
  function Held(h: seq<Event>): seq<Key> {
    if h == [] then []
    else
      var before := Held(h[..|h| - 1]);
      match h[|h| - 1]
      case Registered(key) => before + [key]
      case CleanedUp(vmId, user, publicKey) => Filter(before, OtherThan(vmId, user, publicKey))
      case Listed(now) => Filter(before, NotExpired(now))
  }

  lemma HeldSnoc(h: seq<Event>, e: Event)
    ensures e.Registered? ==> Held(h + [e]) == Held(h) + [e.key]
    ensures e.CleanedUp? ==> Held(h + [e]) == Filter(Held(h), OtherThan(e.vmId, e.user, e.publicKey))
    ensures e.Listed? ==> Held(h + [e]) == Filter(Held(h), NotExpired(e.now))
  {
    hide Filter;
    assert (h + [e])[..|h|] == h;
  }

  /** Event i registered a key that has not expired and that no later event cleaned up. */
  predicate Outlives(h: seq<Event>, i: nat, now: int)
    requires i < |h|
  {
    h[i].Registered? && h[i].key.expiresAt > now
    && forall j :: i < j < |h| ==> h[j] != CleanedUp(h[i].key.vmId, h[i].key.user, h[i].key.publicKey)
  }

  /** The keys of the first n events that are still good at `now`, in the order of registration. */
  function Outstanding(h: seq<Event>, n: nat, now: int): seq<Key>
    requires n <= |h|
  {
    if n == 0 then []
    else Outstanding(h, n - 1, now) + if Outlives(h, n - 1, now) then [h[n - 1].key] else []
  }

  /** No later listing has found the key of event i expired. */
  predicate Unexpired(h: seq<Event>, i: nat)
    requires i < |h| && h[i].Registered?
  {
    forall j :: i < j < |h| && h[j].Listed? ==> h[j].now < h[i].key.expiresAt
  }

  predicate Shown(h: seq<Event>, i: nat, now: int)
    requires i < |h|
  {
    Outlives(h, i, now) && Unexpired(h, i)
  }

  /** The keys of the first n events that the list still holds at `now`. */
  function Answer(h: seq<Event>, n: nat, now: int): seq<Key>
    requires n <= |h|
  {
    if n == 0 then [] else Answer(h, n - 1, now) + if Shown(h, n - 1, now) then [h[n - 1].key] else []
  }

  /** The keys that an event leaves in the list. */
  function Leaves(e: Event): Key -> bool {
    match e
    case Registered(_) => ((k: Key) => true)
    case CleanedUp(vmId, user, publicKey) => OtherThan(vmId, user, publicKey)
    case Listed(now) => NotExpired(now)
  }

  lemma ShownMore(h: seq<Event>, e: Event, i: nat, now: int)
    requires i < |h|
    ensures (h + [e])[i] == h[i] && (Shown(h, i, now) ==> h[i].Registered?)
    ensures Shown(h + [e], i, now) <==> Shown(h, i, now) && Leaves(e)(h[i].key)
  {
    var more := h + [e];
    assert more[i] == h[i] && more[|h|] == e;
    assert forall j :: i < j < |h| ==> more[j] == h[j];
    if Shown(more, i, now) {
      forall j | i < j < |h|
        ensures h[j] != CleanedUp(h[i].key.vmId, h[i].key.user, h[i].key.publicKey)
        ensures h[j].Listed? ==> h[j].now < h[i].key.expiresAt
      {
        assert more[j] == h[j];
      }
    }
  }

  lemma {:induction false} AnswerMore(h: seq<Event>, e: Event, n: nat, now: int)
    requires n <= |h|
    ensures Answer(h + [e], n, now) == Filter(Answer(h, n, now), Leaves(e))
  {
    hide Filter, Shown, Leaves;
    if n == 0 {
      FilterNothing(Leaves(e));
    } else {
      AnswerMore(h, e, n - 1, now);
      ShownMore(h, e, n - 1, now);
      var before := Answer(h, n - 1, now);
      if Shown(h, n - 1, now) {
        FilterSnoc(before, h[n - 1].key, Leaves(e));
      } else {
        assert before + [] == before;
      }
    }
  }

  lemma {:induction false} FilterEverything(s: seq<Key>, keep: Key -> bool)
    requires forall k :: keep(k)
    ensures Filter(s, keep) == s
  {
    if s != [] {
      FilterEverything(s[1..], keep);
      assert [s[0]] + s[1..] == s;
    }
  }

  /** For every history, whatever the clock readings: the list answers with the keys registered, not cleaned up since,
      not expired, and not found expired by a later listing. */
  lemma {:induction false} HeldAnswer(h: seq<Event>, now: int)
    ensures Filter(Held(h), NotExpired(now)) == Answer(h, |h|, now)
    decreases |h|
  {
    hide Filter, Shown;
    var good := NotExpired(now);
    if h == [] {
      FilterNothing(good);
    } else {
      var init, e := h[..|h| - 1], h[|h| - 1];
      assert h == init + [e];
      HeldAnswer(init, now);
      AnswerMore(init, e, |init|, now);
      LastShown(init, e, now);
      HeldSnoc(init, e);
      if e.Registered? {
        FilterSnoc(Held(init), e.key, good);
        FilterEverything(Answer(init, |init|, now), Leaves(e));
      } else {
        FiltersCommute(Held(init), Leaves(e), good);
        assert Answer(h, |init|, now) + [] == Answer(h, |init|, now);
      }
    }
  }

  lemma LastShown(h: seq<Event>, e: Event, now: int)
    ensures (h + [e])[|h|] == e && (Shown(h + [e], |h|, now) <==> e.Registered? && NotExpired(now)(e.key))
  {
  }

  /** No key of this kind that is still good was found expired by a later listing. */
  predicate NothingLost(h: seq<Event>, n: nat, now: int, mine: Key -> bool)
    requires n <= |h|
  {
    forall i :: 0 <= i < n && Outlives(h, i, now) && mine(h[i].key) ==> Unexpired(h, i)
  }

  lemma {:induction false} AnswerCount(h: seq<Event>, n: nat, now: int, mine: Key -> bool)
    requires n <= |h|
    ensures var a, o := Filter(Answer(h, n, now), mine), Filter(Outstanding(h, n, now), mine);
            |a| <= |o| && (NothingLost(h, n, now, mine) ==> a == o) && (|a| == |o| ==> NothingLost(h, n, now, mine))
  {
    hide Filter, Outlives, Unexpired;
    if n > 0 {
      AnswerCount(h, n - 1, now, mine);
      var a, o := Answer(h, n - 1, now), Outstanding(h, n - 1, now);
      assert a + [] == a && o + [] == o;
      if Outlives(h, n - 1, now) {
        RegisteredOutlives(h, n - 1, now);
        FilterSnoc(a, h[n - 1].key, mine);
        FilterSnoc(o, h[n - 1].key, mine);
        if !mine(h[n - 1].key) {
          assert Filter(a, mine) + [] == Filter(a, mine) && Filter(o, mine) + [] == Filter(o, mine);
        }
      }
    }
  }

  lemma RegisteredOutlives(h: seq<Event>, i: nat, now: int)
    requires i < |h| && Outlives(h, i, now)
    ensures h[i].Registered?
  {
  }

  /** The texts answered for a VM and user are exactly those of the keys registered, not cleaned up since and not
      expired, if and only if no such key was found expired by a listing, that is, by a later reading of the clock that
      came earlier in the order of the lock. */
  lemma AnswerExact(h: seq<Event>, now: int, vmId: Id, user: string)
    ensures Picked(Held(h), NotExpired(now), For(vmId, user)) ==
            PublicKeys(Filter(Outstanding(h, |h|, now), For(vmId, user)))
            <==> NothingLost(h, |h|, now, For(vmId, user))
  {
    hide Filter, Held, Answer, Outstanding, NothingLost, For;
    HeldAnswer(h, now);
    var mine := For(vmId, user);
    AnswerCount(h, |h|, now, mine);
    assert |PublicKeys(Filter(Answer(h, |h|, now), mine))| == |Filter(Answer(h, |h|, now), mine)|;
    assert |PublicKeys(Filter(Outstanding(h, |h|, now), mine))| == |Filter(Outstanding(h, |h|, now), mine)|;
  }

  /** Readings that keep the order of the lock lose nothing. */
  lemma SteadyClock(h: seq<Event>, now: int, mine: Key -> bool)
    requires forall i :: 0 <= i < |h| && h[i].Listed? ==> h[i].now <= now
    ensures NothingLost(h, |h|, now, mine)
  {
  }

  lemma FilterNothing(keep: Key -> bool)
    ensures Filter([], keep) == []
  {
  }

  /** A good key can be missing. AuthorizedKeys reads the clock before it takes the lock, so a call that reads 5 and is
      overtaken by one that reads 20 is enough: its user has a key good until 10 and is answered with none. */
  lemma OvertakenCall()
    ensures
      var h := [Registered(Key("vm", "dev", "k", 10)), Listed(20)];
      Filter(Held(h), NotExpired(5)) == [] && Outstanding(h, 2, 5) == [Key("vm", "dev", "k", 10)]
  {
    var key := Key("vm", "dev", "k", 10);
    var one := [Registered(key)];
    var h := [Registered(key), Listed(20)];
    assert h[..1] == one && one[..0] == [];
    assert Held(one) == [key];
    FilterSnoc([], key, NotExpired(20));
    assert [] + [key] == [key];
    assert Outlives(h, 0, 5);
    assert Outstanding(h, 1, 5) == [key];
  }

  // ---------------------------------------------------------------------------------------------
  // The service's list

  /** The columns of a VM row that AuthorizedKeys reads. */
  datatype Login = Login(vmId: Id, devUser: string, sshKeyId: Id, managedKey: string, extraKeys: string)

  /** The keys of the row: the referenced one, or else the managed one; and the extra ones. `stored` is the answer of
      GetSSHKey. */
  function RowKeys(vm: Login, stored: Result<Option<string>>): Result<seq<string>> {
    var extra := if TrimSpace(vm.extraKeys) != "" then [TrimSpace(vm.extraKeys)] else [];
    if vm.sshKeyId != "" then
      var key :- stored;
      Ok((if key.Some? then [key.value] else []) + extra)
    else Ok((if vm.managedKey != "" then [vm.managedKey] else []) + extra)
  }

  function KeyFile(keys: seq<string>): string {
    TrimSpace(Join(keys, '\n')) + "\n"
  }

  /** The answer to sshd has each key on a line of its own. */
  lemma KeyFileLines(keys: seq<string>)
    requires keys != [] && forall k :: k in keys ==> k != "" && Trimmed(k) && '\n' !in k
    ensures Split(KeyFile(keys), '\n') == keys + [""]
  {
    hide IsSpace;
    JoinedTrimmed(keys);
    var more := keys + [""];
    JoinSnoc(keys, "", '\n');
    assert Join(keys, '\n') + "\n" + "" == Join(keys, '\n') + "\n";
    SplitJoin(more, '\n');
  }

  lemma {:induction false} JoinSnoc(parts: seq<string>, last: string, sep: char)
    requires parts != []
    ensures Join(parts + [last], sep) == Join(parts, sep) + [sep] + last
  {
    assert (parts + [last])[1..] == parts[1..] + [last];
    if |parts| > 1 {
      JoinSnoc(parts[1..], last, sep);
    }
  }

  lemma {:induction false} JoinedTrimmed(keys: seq<string>)
    requires keys != [] && forall k :: k in keys ==> k != "" && Trimmed(k)
    ensures Join(keys, '\n') != "" && Trimmed(Join(keys, '\n'))
  {
    hide IsSpace;
    assert keys[0] in keys;
    if |keys| > 1 {
      assert forall k :: k in keys[1..] ==> k in keys;
      JoinedTrimmed(keys[1..]);
    }
  }

  /** No key: one empty line. */
  lemma NoKeys()
    ensures KeyFile([]) == "\n"
  {
  }

  /** A stored key takes the place of the managed one; the extra keys follow when they are not blank. */
  lemma RowKeysExactly(vm: Login, stored: Result<Option<string>>)
    requires TrimSpace(vm.extraKeys) == vm.extraKeys
    ensures vm.sshKeyId != "" && stored.Err? ==> RowKeys(vm, stored) == Err(stored.code)
    ensures RowKeys(vm, stored).Ok? ==>
              forall k :: k in RowKeys(vm, stored).value <==>
                || (k == vm.extraKeys && k != "")
                || (vm.sshKeyId != "" && stored == Ok(Some(k)))
                || (vm.sshKeyId == "" && k == vm.managedKey && k != "")
  {
    hide TrimSpace;
  }

  class TerminalKeys {
    var data: array<Key>
    var len: nat
    ghost var history: seq<Event>

    ghost predicate Valid()
      reads this, data
    {
      len <= data.Length && data[..len] == Held(history)
    }

    constructor ()
      ensures Valid() && fresh(data) && history == []
    {
      data := new Key[0];
      len, history := 0, [];
    }

    /** append: in place when the slice has room, else in a larger array. */
    method Register(key: Key)
      requires Valid()
      modifies this, data
      ensures Valid() && (data == old(data) || fresh(data))
      ensures history == old(history) + [Registered(key)]
    {
      if len == data.Length {
        var larger := new Key[2 * len + 1](_ => key);
        for i := 0 to len
          modifies larger
          invariant larger[..i] == data[..i]
        {
          larger[i] := data[i];
        }
        data := larger;
      }
      data[len] := key;
      len := len + 1;
      HeldSnoc(history, Registered(key));
      history := history + [Registered(key)];
    }

    /** The cleanup function of newEphemeralTerminalSigner. The compacted list shares the array it is read from. */
    method Cleanup(vmId: Id, user: string, publicKey: string)
      requires Valid()
      modifies this, data
      ensures Valid() && data == old(data)
      ensures history == old(history) + [CleanedUp(vmId, user, publicKey)]
    {
      hide Filter, Held;
      ghost var was, keep := data[..len], OtherThan(vmId, user, publicKey);
      FilterNothing(keep);
      var out := 0;
      for i := 0 to len
        modifies data
        invariant 0 <= out <= i && forall j :: i <= j < len ==> data[j] == was[j]
        invariant data[..out] == Filter(was[..i], keep)
      {
        assert was[..i + 1] == was[..i] + [was[i]];
        FilterSnoc(was[..i], was[i], keep);
        var key := data[i];
        if !(key.vmId == vmId && key.user == user && key.publicKey == publicKey) {
          KeepAt(data, out, key);
          out := out + 1;
        }
      }
      assert was[..len] == was;
      len := out;
      HeldSnoc(history, CleanedUp(vmId, user, publicKey));
      history := history + [CleanedUp(vmId, user, publicKey)];
    }

    static method CollectRowKeys(vm: Login, stored: Result<Option<string>>) returns (r: Result<seq<string>>)
      ensures r == RowKeys(vm, stored)
    {
      hide TrimSpace;
      var keys: seq<string> := [];
      if vm.sshKeyId != "" {
        if stored.Err? {
          return Err(stored.code);
        }
        if stored.value.Some? {
          keys := keys + [stored.value.value];
        }
      } else if vm.managedKey != "" {
        keys := keys + [vm.managedKey];
      }
      var extra := TrimSpace(vm.extraKeys);
      if extra != "" {
        keys := keys + [extra];
      }
      assert keys == RowKeys(vm, stored).value;
      return Ok(keys);
    }

    /** AuthorizedKeys, with the reading of the clock as a parameter. The keys after those of the row are the ones of
        this VM and user that are still shown, which are all the good ones exactly when none was lost. */
    method AuthorizedKeys(vm: Login, user: string, stored: Result<Option<string>>, now: int) returns (r: Result<string>)
      requires Valid()
      modifies this, data
      ensures Valid() && data == old(data)
      ensures
        if user != "" && user != vm.devUser then r == Ok("") && history == old(history)
        else if RowKeys(vm, stored).Err? then r == Err(RowKeys(vm, stored).code) && history == old(history)
        else
          var h, mine := old(history), For(vm.vmId, vm.devUser);
          var shown := PublicKeys(Filter(Answer(h, |h|, now), mine));
          && history == h + [Listed(now)]
          && r == Ok(KeyFile(RowKeys(vm, stored).value + shown))
          && (shown == PublicKeys(Filter(Outstanding(h, |h|, now), mine)) <==> NothingLost(h, |h|, now, mine))
    {
      hide Filter, Held, RowKeys, KeyFile, Outstanding, NotExpired, For, Answer, NothingLost, PublicKeys;
      if user != "" && user != vm.devUser {
        return Ok("");
      }
      var row := CollectRowKeys(vm, stored);
      if row.Err? {
        return Err(row.code);
      }
      var keys := row.value;
      var terminal := DropExpired(vm.vmId, vm.devUser, now);
      HeldSnoc(history, Listed(now));
      history := history + [Listed(now)];
      HeldAnswer(old(history), now);
      AnswerExact(old(history), now, vm.vmId, vm.devUser);
      return Ok(KeyFile(keys + terminal));
    }

    /** append to the compacted list, which shares the array. */
    static method KeepAt(data: array<Key>, at: nat, key: Key)
      requires at < data.Length
      modifies data
      ensures data[..at + 1] == old(data[..at]) + [key]
      ensures forall j :: at < j < data.Length ==> data[j] == old(data[j])
    {
      data[at] := key;
    }

    /** The loop of AuthorizedKeys, under the lock. */
    method DropExpired(vmId: Id, user: string, now: int) returns (keys: seq<string>)
      requires len <= data.Length
      modifies this`len, data
      ensures len <= data.Length && data[..len] == Filter(old(data[..len]), NotExpired(now))
      ensures keys == Picked(old(data[..len]), NotExpired(now), For(vmId, user))
    {
      hide Filter, Picked, NotExpired, For, Held, Answer, Outstanding, NothingLost;
      ghost var was, keep, mine := data[..len], NotExpired(now), For(vmId, user);
      FilterNothing(keep);
      PickedSnoc([], Key("", "", "", 0), keep, mine);
      keys := [];
      var filtered := 0;
      for i := 0 to len
        modifies data
        invariant 0 <= filtered <= i && forall j :: i <= j < len ==> data[j] == was[j]
        invariant data[..filtered] == Filter(was[..i], keep)
        invariant keys == Picked(was[..i], keep, mine)
      {
        assert was[..i + 1] == was[..i] + [was[i]];
        FilterSnoc(was[..i], was[i], keep);
        var key := data[i];
        PickedSnoc(was[..i], key, keep, mine);
        FilterTests(key, vmId, user, now);
        if key.expiresAt > now {
          KeepAt(data, filtered, key);
          filtered := filtered + 1;
          if key.vmId == vmId && key.user == user {
            keys := keys + [key.publicKey];
          }
        }
      }
      assert was[..len] == was;
      len := filtered;
    }
  }
}
