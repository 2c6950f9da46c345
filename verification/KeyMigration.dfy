/** migrateLegacySSHKeys of internal/store/store.go: every VM with a stored public key but no key reference gets
    one, sharing rows by fingerprint, with an unbounded search for a free name. */
module KeyMigration {
  import opened Model
  import opened Text

  datatype KeyRow = KeyRow(id: Id, name: string, publicKey: string, fingerprint: string)

  /** The columns of a VM row that the migration reads and writes. */
  datatype LegacyVM = LegacyVM(id: Id, name: string, publicKey: string, sshKeyId: Id)

  /** What sshkeys.NormalizePublicKey returns for a key that parses. */
  datatype Parsed = Parsed(normalized: string, fingerprint: string)

  // ---------------------------------------------------------------------------------------------
  // Candidate names

  /** The name tried by attempt a, counted from 0. */
  function Candidate(keyName: string, a: nat): string {
    if a == 0 then keyName else keyName + "-" + Itoa(a + 1)
  }

  lemma CandidatesDiffer(keyName: string, a: nat, b: nat)
    requires a != b
    ensures Candidate(keyName, a) != Candidate(keyName, b)
  {
    if a > 0 && b > 0 && Candidate(keyName, a) == Candidate(keyName, b) {
      var p := keyName + "-";
      assert (p + Itoa(a + 1))[|p|..] == Itoa(a + 1) && (p + Itoa(b + 1))[|p|..] == Itoa(b + 1);
      ItoaInjective(a + 1, b + 1);
    } else if a == 0 {
      assert |Candidate(keyName, b)| > |keyName|;
    } else if b == 0 {
      assert |Candidate(keyName, a)| > |keyName|;
    }
  }

  function Candidates(keyName: string, n: nat): set<string> {
    if n == 0 then {} else Candidates(keyName, n - 1) + {Candidate(keyName, n - 1)}
  }

  lemma {:induction false} CandidatesMembers(keyName: string, n: nat)
    ensures forall x :: x in Candidates(keyName, n) ==> exists a :: 0 <= a < n && x == Candidate(keyName, a)
    ensures |Candidates(keyName, n)| == n
  {
    hide Candidate;
    if n > 0 {
      CandidatesMembers(keyName, n - 1);
      if Candidate(keyName, n - 1) in Candidates(keyName, n - 1) {
        var a :| 0 <= a < n - 1 && Candidate(keyName, n - 1) == Candidate(keyName, a);
        CandidatesDiffer(keyName, a, n - 1);
      }
    }
  }

  function Names(keys: seq<KeyRow>): set<string> {
    set k | k in keys :: k.name
  }

  lemma {:induction false} NamesSize(keys: seq<KeyRow>)
    ensures |Names(keys)| <= |keys|
  {
    if keys == [] {
    } else {
      NamesSize(keys[1..]);
      assert Names(keys) == Names(keys[1..]) + {keys[0].name};
    }
  }

  /** Distinct candidates against a finite table: at most |ssh_keys| attempts can find their name taken. */
  lemma AttemptsBounded(keys: seq<KeyRow>, keyName: string, n: nat)
    requires forall a :: 0 <= a < n ==> Candidate(keyName, a) in Names(keys)
    ensures n <= |keys|
  {
    hide Candidate;
    CandidatesMembers(keyName, n);
    SubsetFull(Candidates(keyName, n), Names(keys));
    NamesSize(keys);
  }

  // ---------------------------------------------------------------------------------------------
  // The migration

  /** PRIMARY KEY and UNIQUE constraints of ssh_keys. */
  predicate KeysUnique(keys: seq<KeyRow>) {
    && (forall k, l | k in keys && l in keys && (k.id == l.id || k.name == l.name || k.fingerprint == l.fingerprint) ::
          k == l)
    && (forall k :: k in keys ==> k.id != "")
  }

  /** Nothing for the migration to do in this row. */
  predicate Settled(vm: LegacyVM, parse: string -> Option<Parsed>) {
    vm.publicKey == "" || vm.sshKeyId != "" || parse(vm.publicKey).None?
  }

  /** The row refers to the key row of its key's fingerprint and stores the normalised key. */
  predicate Linked(before: LegacyVM, after: LegacyVM, keys: seq<KeyRow>, parse: string -> Option<Parsed>)
    requires parse(before.publicKey).Some?
  {
    var p := parse(before.publicKey).value;
    after.id == before.id && after.name == before.name && after.publicKey == p.normalized && after.sshKeyId != ""
    && exists k :: k in keys && k.id == after.sshKeyId && k.fingerprint == p.fingerprint
  }

  predicate Migrated(before: LegacyVM, after: LegacyVM, keys: seq<KeyRow>, parse: string -> Option<Parsed>) {
    if Settled(before, parse) then after == before else Linked(before, after, keys, parse)
  }

  lemma MigratedWithMoreKeys(before: LegacyVM, after: LegacyVM, keys: seq<KeyRow>, more: seq<KeyRow>,
                             parse: string -> Option<Parsed>)
    requires Migrated(before, after, keys, parse) && forall k :: k in keys ==> k in more
    ensures Migrated(before, after, more, parse)
  {
    if !Settled(before, parse) {
      var k :| k in keys && k.id == after.sshKeyId && k.fingerprint == parse(before.publicKey).value.fingerprint;
      assert k in more;
    }
  }

  // ---------------------------------------------------------------------------------------------
  // Key ids

  /** The id tried for row i by attempt a; `suffix` is random.Hex. */
  function KeyIdAt(vms: seq<LegacyVM>, suffix: (nat, nat) -> string, i: nat, a: nat): (id: Id)
    requires i < |vms|
    ensures id != ""
  {
    "legacy-" + vms[i].id + if a == 0 then "" else "-" + suffix(i, a)
  }

  function Ids(keys: seq<KeyRow>): set<Id> {
    set k | k in keys :: k.id
  }

  /** Attempt a finds its name taken and SQLite says so; `blamesName` says which constraint it reports when an attempt
      breaks both. */
  predicate Retries(keys: seq<KeyRow>, vms: seq<LegacyVM>, keyName: string, suffix: (nat, nat) -> string,
                    blamesName: (nat, nat) -> bool, i: nat, a: nat)
    requires i < |vms|
  {
    Candidate(keyName, a) in Names(keys) && (KeyIdAt(vms, suffix, i, a) !in Ids(keys) || blamesName(i, a))
  }

  /** Attempt n is the first that does not retry. */
  predicate LastAttempt(keys: seq<KeyRow>, vms: seq<LegacyVM>, keyName: string, suffix: (nat, nat) -> string,
                        blamesName: (nat, nat) -> bool, i: nat, n: nat)
    requires i < |vms|
  {
    !Retries(keys, vms, keyName, suffix, blamesName, i, n)
    && forall a :: 0 <= a < n ==> Retries(keys, vms, keyName, suffix, blamesName, i, a)
  }

  /** The row that the last attempt inserts. */
  function NewKey(vms: seq<LegacyVM>, keyName: string, p: Parsed, suffix: (nat, nat) -> string, i: nat, n: nat): KeyRow
    requires i < |vms|
  {
    KeyRow(KeyIdAt(vms, suffix, i, n), Candidate(keyName, n), p.normalized, p.fingerprint)
  }

  predicate HasFingerprint(keys: seq<KeyRow>, fingerprint: string) {
    exists k :: k in keys && k.fingerprint == fingerprint
  }

  /** No key row has the fingerprint of row i's key yet. */
  predicate Needs(keys: seq<KeyRow>, vms: seq<LegacyVM>, parse: string -> Option<Parsed>, i: nat)
    requires i < |vms|
  {
    !Settled(vms[i], parse) && !HasFingerprint(keys, parse(vms[i].publicKey).value.fingerprint)
  }

  lemma RetriesBounded(keys: seq<KeyRow>, vms: seq<LegacyVM>, keyName: string, suffix: (nat, nat) -> string,
                       blamesName: (nat, nat) -> bool, i: nat, n: nat)
    requires i < |vms| && forall a :: 0 <= a < n ==> Retries(keys, vms, keyName, suffix, blamesName, i, a)
    ensures n <= |keys|
  {
    hide Candidate, KeyIdAt;
    forall a | 0 <= a < n
      ensures Candidate(keyName, a) in Names(keys)
    {
      assert Retries(keys, vms, keyName, suffix, blamesName, i, a);
    }
    AttemptsBounded(keys, keyName, n);
  }

  lemma NextAttempt(vms: seq<LegacyVM>, keyName: string, suffix: (nat, nat) -> string, i: nat, a: nat)
    requires i < |vms| && a > 0
    ensures Candidate(keyName, a) == keyName + "-" + Itoa(a + 1)
    ensures KeyIdAt(vms, suffix, i, a) == "legacy-" + vms[i].id + "-" + suffix(i, a)
  {
    assert "legacy-" + vms[i].id + ("-" + suffix(i, a)) == "legacy-" + vms[i].id + "-" + suffix(i, a);
  }

  lemma FirstAttempt(vms: seq<LegacyVM>, keyName: string, suffix: (nat, nat) -> string, i: nat)
    requires i < |vms|
    ensures Candidate(keyName, 0) == keyName && KeyIdAt(vms, suffix, i, 0) == "legacy-" + vms[i].id
  {
  }

  /** The key row holds the normalised key of row i and its fingerprint. */
  predicate MadeFor(k: KeyRow, vms: seq<LegacyVM>, parse: string -> Option<Parsed>, i: nat)
    requires i < |vms|
  {
    parse(vms[i].publicKey) == Some(Parsed(k.publicKey, k.fingerprint))
  }

  /** The key row was tried for one of the first n rows that need one, by one of the first `bound` attempts. */
  predicate Tried(k: KeyRow, keys: seq<KeyRow>, vms: seq<LegacyVM>, parse: string -> Option<Parsed>,
                  suffix: (nat, nat) -> string, n: nat, bound: nat)
    requires n <= |vms|
  {
    exists i, a | 0 <= i < n && 0 <= a < bound && k.id == KeyIdAt(vms, suffix, i, a) ::
      Needs(keys, vms, parse, i) && MadeFor(k, vms, parse, i) && k.name == Candidate(vms[i].name + "-legacy", a)
  }

  /** No id that a run can try is in the table or is tried for two rows. A run tries ids only for the rows that need a
      key row. */
  predicate FreshIds(keys: seq<KeyRow>, vms: seq<LegacyVM>, parse: string -> Option<Parsed>,
                     suffix: (nat, nat) -> string)
  {
    var bound := |keys| + |vms|;
    && (forall i, a :: 0 <= i < |vms| && 0 <= a < bound && Needs(keys, vms, parse, i) ==>
          KeyIdAt(vms, suffix, i, a) !in Ids(keys))
    && (forall i, a, j, b | 0 <= i < j < |vms| && 0 <= a < bound && 0 <= b < bound
                            && Needs(keys, vms, parse, i) && Needs(keys, vms, parse, j) ::
          KeyIdAt(vms, suffix, i, a) != KeyIdAt(vms, suffix, j, b))
  }

  const LEGACY := "legacy-"

  /** The key id is one that the migration makes for the VM. */
  predicate NamesVM(id: Id, vmId: Id) {
    LEGACY <= id && var rest := id[|LEGACY|..]; rest[..IndexOf(rest, '-')] == vmId
  }

  lemma KeyIdNamesVM(vms: seq<LegacyVM>, suffix: (nat, nat) -> string, i: nat, a: nat)
    requires i < |vms| && '-' !in vms[i].id
    ensures NamesVM(KeyIdAt(vms, suffix, i, a), vms[i].id)
  {
    var id, rest := vms[i].id, KeyIdAt(vms, suffix, i, a)[|LEGACY|..];
    if a == 0 {
      assert rest == id;
    } else {
      assert rest == id + ['-'] + suffix(i, a);
      IndexAfter(id, '-', suffix(i, a));
    }
  }

  /** Row ids are distinct and hold no dash, as random hexadecimal ids do, and no key id names a row that needs a key
      row. A table that no migration has touched is like this, and so is every state that a run leaves, also a run that
      was interrupted between its statements. */
  predicate Ready(keys: seq<KeyRow>, vms: seq<LegacyVM>, parse: string -> Option<Parsed>) {
    && (forall i, j :: 0 <= i < j < |vms| ==> vms[i].id != vms[j].id)
    && (forall v :: v in vms ==> '-' !in v.id)
    && (forall k, i :: k in keys && 0 <= i < |vms| && Needs(keys, vms, parse, i) ==> !NamesVM(k.id, vms[i].id))
  }

  lemma ReadyIsFresh(keys: seq<KeyRow>, vms: seq<LegacyVM>, parse: string -> Option<Parsed>,
                     suffix: (nat, nat) -> string)
    requires Ready(keys, vms, parse)
    ensures FreshIds(keys, vms, parse, suffix)
  {
    hide KeyIdAt, Needs, NamesVM;
    forall i, a | 0 <= i < |vms| && 0 <= a
      ensures NamesVM(KeyIdAt(vms, suffix, i, a), vms[i].id)
    {
      KeyIdNamesVM(vms, suffix, i, a);
    }
    forall id, v, w | NamesVM(id, v) && NamesVM(id, w)
      ensures v == w
    {
      NamesOne(id, v, w);
    }
  }

  lemma NamesOne(id: Id, v: Id, w: Id)
    requires NamesVM(id, v) && NamesVM(id, w)
    ensures v == w
  {
  }

  /** The state between the INSERT and the UPDATE of one row. */
  lemma ReadyAfterInsert(keys: seq<KeyRow>, vms: seq<LegacyVM>, parse: string -> Option<Parsed>,
                         suffix: (nat, nat) -> string, i: nat, a: nat, k: KeyRow)
    requires Ready(keys, vms, parse) && i < |vms| && Needs(keys, vms, parse, i)
    requires k.id == KeyIdAt(vms, suffix, i, a) && k.fingerprint == parse(vms[i].publicKey).value.fingerprint
    ensures Ready(keys + [k], vms, parse)
  {
    hide KeyIdAt, NamesVM;
    KeyIdNamesVM(vms, suffix, i, a);
    forall x, j | x in keys + [k] && 0 <= j < |vms| && Needs(keys + [k], vms, parse, j)
      ensures !NamesVM(x.id, vms[j].id)
    {
      NeedsLater(keys, keys + [k], vms, parse, j);
      if x == k {
        assert k in keys + [k];
        if NamesVM(k.id, vms[j].id) {
          NamesOne(k.id, vms[i].id, vms[j].id);
        }
      }
    }
  }

  lemma NeedsLater(keys: seq<KeyRow>, more: seq<KeyRow>, vms: seq<LegacyVM>, parse: string -> Option<Parsed>, i: nat)
    requires i < |vms| && keys <= more && Needs(more, vms, parse, i)
    ensures Needs(keys, vms, parse, i)
  {
    assert forall k :: k in keys ==> k in more;
  }

  lemma ReadyAfterLink(keys: seq<KeyRow>, vms: seq<LegacyVM>, parse: string -> Option<Parsed>, i: nat, after: LegacyVM)
    requires Ready(keys, vms, parse) && i < |vms| && after.id == vms[i].id && Settled(after, parse)
    ensures Ready(keys, vms[i := after], parse)
  {
    hide NamesVM;
    var now := vms[i := after];
    forall v | v in now
      ensures '-' !in v.id
    {
      assert vms[i] in vms;
    }
    forall k, j | k in keys && 0 <= j < |now| && Needs(keys, now, parse, j)
      ensures !NamesVM(k.id, now[j].id)
    {
      assert j != i && Needs(keys, vms, parse, j);
    }
  }

  /** A taken id is the id of a row that needs a key row. */
  lemma ReadyNotStuck(keys: seq<KeyRow>, vms: seq<LegacyVM>, parse: string -> Option<Parsed>,
                      suffix: (nat, nat) -> string, blamesName: (nat, nat) -> bool, i: nat, n: nat)
    requires i < |vms| && Stuck(keys, vms, parse, suffix, blamesName, i, n)
    ensures !Ready(keys, vms, parse)
  {
    hide NamesVM, KeyIdAt, LastAttempt;
    var k :| k in keys && k.id == KeyIdAt(vms, suffix, i, n);
    if '-' !in vms[i].id {
      KeyIdNamesVM(vms, suffix, i, n);
    }
  }

  /** Row i needs a new key row, and its last attempt, number n, finds its id taken. */
  predicate Stuck(keys: seq<KeyRow>, vms: seq<LegacyVM>, parse: string -> Option<Parsed>, suffix: (nat, nat) -> string,
                  blamesName: (nat, nat) -> bool, i: nat, n: nat)
    requires i < |vms|
  {
    && Needs(keys, vms, parse, i) && KeyIdAt(vms, suffix, i, n) in Ids(keys)
    && LastAttempt(keys, vms, vms[i].name + "-legacy", suffix, blamesName, i, n)
  }

  /** Only row i matters. */
  lemma StuckSame(keys: seq<KeyRow>, vms: seq<LegacyVM>, now: seq<LegacyVM>, parse: string -> Option<Parsed>,
                  suffix: (nat, nat) -> string, blamesName: (nat, nat) -> bool, i: nat, n: nat)
    requires i < |vms| == |now| && vms[i] == now[i] && Stuck(keys, now, parse, suffix, blamesName, i, n)
    ensures Stuck(keys, vms, parse, suffix, blamesName, i, n)
  {
    hide Candidate;
    forall a | 0 <= a
      ensures Retries(keys, vms, vms[i].name + "-legacy", suffix, blamesName, i, a) ==
              Retries(keys, now, now[i].name + "-legacy", suffix, blamesName, i, a)
    {
    }
  }

  class KeyTables {
    var keys: seq<KeyRow>
    var vms: seq<LegacyVM>

    constructor (keys: seq<KeyRow>, vms: seq<LegacyVM>)
      ensures this.keys == keys && this.vms == vms
    {
      this.keys, this.vms := keys, vms;
    }

    /** The retry loop for row i. None is the error return: the id tried last was taken. */
    method InsertUnderFreeName(i: nat, keyName: string, p: Parsed, suffix: (nat, nat) -> string,
                               blamesName: (nat, nat) -> bool)
      returns (r: Option<Id>, attempts: nat)
      requires i < |vms| && KeysUnique(keys) && !HasFingerprint(keys, p.fingerprint)
      modifies this`keys
      ensures 1 <= attempts <= |old(keys)| + 1
      ensures LastAttempt(old(keys), vms, keyName, suffix, blamesName, i, attempts - 1)
      ensures r.Some? <==> KeyIdAt(vms, suffix, i, attempts - 1) !in Ids(old(keys))
      ensures r.Some? ==> r.value == KeyIdAt(vms, suffix, i, attempts - 1)
      ensures r.Some? ==> Candidate(keyName, attempts - 1) !in Names(old(keys))
      ensures keys == if r.None? then old(keys) else old(keys) + [NewKey(vms, keyName, p, suffix, i, attempts - 1)]
      ensures KeysUnique(keys)
    {
      hide Candidate, KeyIdAt;
      FirstAttempt(vms, keyName, suffix, i);
      var keyId := "legacy-" + vms[i].id;
      var name := keyName;
      attempts := 0;
      while true
        invariant keys == old(keys)
        invariant name == Candidate(keyName, attempts) && keyId == KeyIdAt(vms, suffix, i, attempts)
        invariant forall a :: 0 <= a < attempts ==> Retries(keys, vms, keyName, suffix, blamesName, i, a)
        invariant attempts <= |keys|
        decreases |keys| - attempts
      {
        var nameTaken := exists k :: k in keys && k.name == name;
        var idTaken := exists k :: k in keys && k.id == keyId;
        attempts := attempts + 1;
        if !nameTaken && !idTaken {
          keys := keys + [KeyRow(keyId, name, p.normalized, p.fingerprint)];
          return Some(keyId), attempts;
        }
        if !nameTaken || (idTaken && !blamesName(i, attempts - 1)) {
          return None, attempts;
        }
        assert Retries(keys, vms, keyName, suffix, blamesName, i, attempts - 1);
        RetriesBounded(keys, vms, keyName, suffix, blamesName, i, attempts);
        NextAttempt(vms, keyName, suffix, i, attempts);
        keyId := "legacy-" + vms[i].id + "-" + suffix(i, attempts);
        name := keyName + "-" + Itoa(attempts + 1);
      }
    }

    /** One row. It fails only when the row needs a new key row and an id tried for it is taken. */
    method MigrateRow(i: nat, parse: string -> Option<Parsed>, suffix: (nat, nat) -> string,
                      blamesName: (nat, nat) -> bool)
      returns (ok: bool)
      requires i < |vms| && KeysUnique(keys)
      modifies this
      ensures KeysUnique(keys) && old(keys) <= keys && |keys| <= |old(keys)| + 1
      ensures |vms| == |old(vms)| && vms == old(vms)[i := vms[i]] && (!ok ==> vms == old(vms) && keys == old(keys))
      ensures ok ==> Migrated(old(vms)[i], vms[i], keys, parse)
      ensures Settled(old(vms)[i], parse) || HasFingerprint(old(keys), parse(old(vms)[i].publicKey).value.fingerprint)
              ==> ok && keys == old(keys)
      ensures !ok ==> exists n :: 0 <= n <= |old(keys)| && Stuck(old(keys), old(vms), parse, suffix, blamesName, i, n)
      ensures ok && keys != old(keys) ==> exists n ::
                0 <= n <= |old(keys)| && KeyIdAt(old(vms), suffix, i, n) !in Ids(old(keys))
                && LastAttempt(old(keys), old(vms), old(vms)[i].name + "-legacy", suffix, blamesName, i, n)
      ensures forall k :: k in keys && k !in old(keys) ==>
                            Needs(old(keys), old(vms), parse, i) && MadeFor(k, old(vms), parse, i)
                            && exists a :: 0 <= a <= |old(keys)| && k.id == KeyIdAt(old(vms), suffix, i, a)
                                           && k.name == Candidate(old(vms)[i].name + "-legacy", a)
      ensures Ready(old(keys), old(vms), parse) ==> ok && Ready(keys, vms, parse)
    {
      hide Candidate, Retries, KeyIdAt, LastAttempt, Ready;
      var l := vms[i];
      if l.publicKey == "" || l.sshKeyId != "" || parse(l.publicKey).None? {
        return true;
      }
      var p := parse(l.publicKey).value;
      var keyId := "";
      if k :| k in keys && k.fingerprint == p.fingerprint {
        keyId := k.id;
      } else {
        var r, attempts := InsertUnderFreeName(i, l.name + "-legacy", p, suffix, blamesName);
        if r.None? {
          assert Stuck(keys, vms, parse, suffix, blamesName, i, attempts - 1);
          ReadyNotStuck(keys, vms, parse, suffix, blamesName, i, attempts - 1);
          return false;
        }
        if Ready(old(keys), vms, parse) {
          ReadyAfterInsert(old(keys), vms, parse, suffix, i, attempts - 1, keys[|keys| - 1]);
        }
        keyId := r.value;
        assert keys[|keys| - 1] in keys;
      }
      if Ready(keys, vms, parse) {
        ReadyAfterLink(keys, vms, parse, i, l.(sshKeyId := keyId, publicKey := p.normalized));
      }
      vms := vms[i := l.(sshKeyId := keyId, publicKey := p.normalized)];
      return true;
    }

    /** Rows without a parseable key and rows that already refer to a key are untouched, whether or not the run
        succeeds. It succeeds when no id it can try is taken, so always from a ready state, and leaves a ready state.
        Then every other row has a reference to an existing key of the same fingerprint and all rows are settled, and a
        run over settled rows changes nothing. */
    method Migrate(parse: string -> Option<Parsed>, suffix: (nat, nat) -> string, blamesName: (nat, nat) -> bool)
      returns (ok: bool)
      requires KeysUnique(keys)
      modifies this
      ensures KeysUnique(keys) && old(keys) <= keys && |vms| == |old(vms)|
      ensures FreshIds(old(keys), old(vms), parse, suffix) ==> ok
      ensures Ready(old(keys), old(vms), parse) ==> ok && Ready(keys, vms, parse)
      ensures !ok ==> exists i, n: nat :: 0 <= i < |vms| && Stuck(keys, old(vms), parse, suffix, blamesName, i, n)
      ensures ok ==> forall i :: 0 <= i < |vms| ==> Migrated(old(vms)[i], vms[i], keys, parse) && Settled(vms[i], parse)
      ensures forall i :: 0 <= i < |vms| ==> vms[i] == old(vms)[i] || Migrated(old(vms)[i], vms[i], keys, parse)
      ensures forall i :: 0 <= i < |vms| && Settled(old(vms)[i], parse) ==> vms[i] == old(vms)[i]
      ensures forall k :: k in keys && k !in old(keys) ==>
                            Tried(k, old(keys), old(vms), parse, suffix, |old(vms)|, |old(keys)| + |old(vms)|)
      ensures (forall i :: 0 <= i < |old(vms)| ==> Settled(old(vms)[i], parse)) ==>
                ok && keys == old(keys) && vms == old(vms)
    {
      hide KeyIdAt, Settled, Linked, KeysUnique, Stuck, Needs, Ready, Candidate, MadeFor;
      ghost var bound := |keys| + |vms|;
      for i := 0 to |vms|
        invariant |vms| == |old(vms)| && old(keys) <= keys && |keys| <= |old(keys)| + i
        invariant KeysUnique(keys)
        invariant forall j :: i <= j < |vms| ==> vms[j] == old(vms)[j]
        invariant forall j :: 0 <= j < |vms| ==> vms[j].id == old(vms)[j].id
        invariant forall j :: 0 <= j < i ==> Migrated(old(vms)[j], vms[j], keys, parse)
        invariant forall k :: k in keys && k !in old(keys) ==> Tried(k, old(keys), old(vms), parse, suffix, i, bound)
        invariant Ready(old(keys), old(vms), parse) ==> Ready(keys, vms, parse)
        invariant (forall j :: 0 <= j < |old(vms)| ==> Settled(old(vms)[j], parse)) ==> keys == old(keys)
      {
        ghost var before, rows := keys, vms;
        SameKeyIds(old(vms), vms, suffix, i);
        var done := MigrateRow(i, parse, suffix, blamesName);
        if !done {
          ghost var n :| 0 <= n <= |before| && Stuck(before, rows, parse, suffix, blamesName, i, n);
          StuckSame(before, old(vms), rows, parse, suffix, blamesName, i, n);
          StuckTaken(before, old(vms), parse, suffix, blamesName, i, n);
          TakenId(old(keys), before, old(vms), parse, suffix, i);
          return false;
        }
        NewKeysTried(old(keys), before, keys, old(vms), rows, parse, suffix, i);
        forall j | 0 <= j < i
          ensures Migrated(old(vms)[j], vms[j], keys, parse)
        {
          assert vms[j] == rows[j];
          MigratedWithMoreKeys(old(vms)[j], vms[j], before, keys, parse);
        }
        MigratedKeepsId(old(vms)[i], vms[i], keys, parse);
      }
      forall i | 0 <= i < |vms|
        ensures Settled(vms[i], parse)
      {
        MigratedIsSettled(old(vms)[i], vms[i], keys, parse);
      }
      ok := true;
    }
  }

  lemma MigratedKeepsId(before: LegacyVM, after: LegacyVM, keys: seq<KeyRow>, parse: string -> Option<Parsed>)
    requires Migrated(before, after, keys, parse)
    ensures after.id == before.id
  {
  }

  lemma StuckTaken(keys: seq<KeyRow>, vms: seq<LegacyVM>, parse: string -> Option<Parsed>, suffix: (nat, nat) -> string,
                   blamesName: (nat, nat) -> bool, i: nat, n: nat)
    requires i < |vms| && Stuck(keys, vms, parse, suffix, blamesName, i, n)
    ensures KeyIdAt(vms, suffix, i, n) in Ids(keys) && Needs(keys, vms, parse, i)
  {
  }

  lemma SameKeyIds(vms: seq<LegacyVM>, now: seq<LegacyVM>, suffix: (nat, nat) -> string, i: nat)
    requires i < |vms| == |now| && vms[i].id == now[i].id
    ensures forall a: nat :: KeyIdAt(now, suffix, i, a) == KeyIdAt(vms, suffix, i, a)
  {
  }

  /** A taken id is in the table the run started with, or was tried for an earlier row. */
  lemma TakenId(keys: seq<KeyRow>, now: seq<KeyRow>, vms: seq<LegacyVM>, parse: string -> Option<Parsed>,
                suffix: (nat, nat) -> string, i: nat)
    requires i < |vms| && keys <= now && |now| <= |keys| + i && Needs(now, vms, parse, i)
    requires forall k :: k in now && k !in keys ==> Tried(k, keys, vms, parse, suffix, i, |keys| + |vms|)
    requires exists a :: 0 <= a <= |now| && KeyIdAt(vms, suffix, i, a) in Ids(now)
    ensures !FreshIds(keys, vms, parse, suffix)
  {
    hide KeyIdAt, Needs;
    NeedsLater(keys, now, vms, parse, i);
    var a :| 0 <= a <= |now| && KeyIdAt(vms, suffix, i, a) in Ids(now);
    var k :| k in now && k.id == KeyIdAt(vms, suffix, i, a);
    if k in keys {
      assert KeyIdAt(vms, suffix, i, a) in Ids(keys);
    } else {
      var j, b :| 0 <= j < i && 0 <= b < |keys| + |vms| && Needs(keys, vms, parse, j)
                  && k.id == KeyIdAt(vms, suffix, j, b);
    }
  }

  /** What one row adds was tried for it, and it needed it from the start. */
  lemma NewKeysTried(keys: seq<KeyRow>, before: seq<KeyRow>, after: seq<KeyRow>, vms: seq<LegacyVM>,
                     rows: seq<LegacyVM>,
                     parse: string -> Option<Parsed>, suffix: (nat, nat) -> string, i: nat)
    requires i < |vms| == |rows| && vms[i] == rows[i] && keys <= before && |before| <= |keys| + i
    requires forall k :: k in before && k !in keys ==> Tried(k, keys, vms, parse, suffix, i, |keys| + |vms|)
    requires forall k :: k in after && k !in before ==>
                           Needs(before, rows, parse, i)
                           && MadeFor(k, rows, parse, i)
                           && exists a :: 0 <= a <= |before| && k.id == KeyIdAt(rows, suffix, i, a)
                                          && k.name == Candidate(rows[i].name + "-legacy", a)
    ensures forall k :: k in after && k !in keys ==> Tried(k, keys, vms, parse, suffix, i + 1, |keys| + |vms|)
  {
    hide KeyIdAt, Candidate;
    SameKeyIds(vms, rows, suffix, i);
    forall k | k in after && k !in keys
      ensures Tried(k, keys, vms, parse, suffix, i + 1, |keys| + |vms|)
    {
      if k !in before {
        assert Needs(before, vms, parse, i);
        NeedsLater(keys, before, vms, parse, i);
        var a :| 0 <= a <= |before| && k.id == KeyIdAt(rows, suffix, i, a)
                 && k.name == Candidate(rows[i].name + "-legacy", a);
        assert k.id == KeyIdAt(vms, suffix, i, a);
      }
    }
  }

  /** Two VMs whose keys have the same fingerprint end up with the same reference. */
  lemma EqualFingerprintsShare(v: LegacyVM, v': LegacyVM, w: LegacyVM, w': LegacyVM,
                               keys: seq<KeyRow>, parse: string -> Option<Parsed>)
    requires KeysUnique(keys) && Migrated(v, v', keys, parse) && Migrated(w, w', keys, parse)
    requires !Settled(v, parse) && !Settled(w, parse)
    ensures v'.sshKeyId == w'.sshKeyId <==> parse(v.publicKey).value.fingerprint == parse(w.publicKey).value.fingerprint
  {
    var k :| k in keys && k.id == v'.sshKeyId && k.fingerprint == parse(v.publicKey).value.fingerprint;
    var l :| l in keys && l.id == w'.sshKeyId && l.fingerprint == parse(w.publicKey).value.fingerprint;
    assert (k.id == l.id || k.fingerprint == l.fingerprint) ==> k == l;
  }

  /** A migrated row is settled, so a second run leaves it alone. */
  lemma MigratedIsSettled(v: LegacyVM, v': LegacyVM, keys: seq<KeyRow>, parse: string -> Option<Parsed>)
    requires Migrated(v, v', keys, parse)
    ensures Settled(v', parse)
  {
  }
}
