/** Bounded retention of output: the capped buffer of an exec session and the tail window of the log page. */
module Buffers {
  type byte = bv8

  // ---------------------------------------------------------------------------------------------
  // limitedBuffer

  /** Everything written, in order. */
  function Concat(writes: seq<seq<byte>>): seq<byte> {
    if writes == [] then [] else Concat(writes[..|writes| - 1]) + writes[|writes| - 1]
  }

  function FirstBytes(s: seq<byte>, limit: nat): seq<byte> {
    if |s| <= limit then s else s[..limit]
  }

  /** Some empty write came when the buffer was already full. */
  predicate EmptyWriteWhenFull(writes: seq<seq<byte>>, limit: nat) {
    exists i :: 0 <= i < |writes| && writes[i] == [] && |Concat(writes[..i])| >= limit
  }

  class LimitedBuffer {
    const limit: nat
    var buf: seq<byte>
    var truncated: bool
    ghost var writes: seq<seq<byte>>

    /** What the buffer holds after the writes it has seen: the first `limit` bytes of the stream. The flag is set
        when bytes were lost, and also by an empty write that found the buffer full. */
    ghost predicate Valid()
      reads this
    {
      && buf == FirstBytes(Concat(writes), limit)
      && (truncated <==> |Concat(writes)| > limit || EmptyWriteWhenFull(writes, limit))
    }

    constructor (limit: nat)
      ensures Valid() && this.limit == limit && writes == [] && buf == [] && !truncated
    {
      this.limit := limit;
      buf, truncated, writes := [], false, [];
    }

    method Write(p: seq<byte>) returns (n: nat)
      requires Valid()
      modifies this
      ensures Valid() && writes == old(writes) + [p] && n == |p|
      ensures var stream := Concat(old(writes)) + p;
              buf <= stream && |buf| == (if |stream| > limit then limit else |stream|)
    {
      ghost var before := writes;
      writes := writes + [p];
      ConcatSnoc(before, p);
      EmptyWriteSnoc(before, p, limit);
      FirstBytesSnoc(Concat(before), p, limit);
      hide Concat, EmptyWriteWhenFull, FirstBytes;
      var remaining: int := limit - |buf|;
      if remaining <= 0 {
        truncated := true;
        return |p|;
      }
      if |p| > remaining {
        buf := buf + p[..remaining];
        truncated := true;
        return |p|;
      }
      buf := buf + p;
      return |p|;
    }
  }

  /** What one more write adds to the first bytes. */
  lemma FirstBytesSnoc(s: seq<byte>, p: seq<byte>, limit: nat)
    ensures var kept := FirstBytes(s, limit);
            |kept| <= limit && (|kept| < limit ==> kept == s)
            && FirstBytes(s + p, limit) == if |kept| + |p| <= limit then kept + p else kept + p[..limit - |kept|]
    ensures |s| >= limit ==> FirstBytes(s, limit) == s[..limit]
  {
    if |s| < limit < |s| + |p| {
      assert (s + p)[..limit] == s + p[..limit - |s|];
    }
  }

  lemma ConcatSnoc(writes: seq<seq<byte>>, p: seq<byte>)
    ensures Concat(writes + [p]) == Concat(writes) + p
  {
    assert (writes + [p])[..|writes|] == writes;
  }

  lemma EmptyWriteSnoc(writes: seq<seq<byte>>, p: seq<byte>, limit: nat)
    ensures EmptyWriteWhenFull(writes + [p], limit) <==>
            EmptyWriteWhenFull(writes, limit) || (p == [] && |Concat(writes)| >= limit)
  {
    hide Concat;
    var more := writes + [p];
    assert more[..|writes|] == writes && more[|writes|] == p;
    if EmptyWriteWhenFull(writes, limit) {
      var i :| 0 <= i < |writes| && writes[i] == [] && |Concat(writes[..i])| >= limit;
      assert more[..i] == writes[..i] && more[i] == [];
    }
    if EmptyWriteWhenFull(more, limit) {
      var i :| 0 <= i < |more| && more[i] == [] && |Concat(more[..i])| >= limit;
      if i < |writes| {
        assert more[..i] == writes[..i];
      }
    }
  }

  lemma {:induction false} ConcatGrows(writes: seq<seq<byte>>, i: nat)
    requires i <= |writes|
    ensures |Concat(writes[..i])| <= |Concat(writes)|
  {
    if i == |writes| {
      assert writes[..i] == writes;
    } else {
      var init := writes[..|writes| - 1];
      ConcatGrows(init, i);
      assert init[..i] == writes[..i];
    }
  }

  /** The flag says exactly whether bytes were lost, unless the stream filled the buffer to the last byte and an empty
      write followed. */
  lemma FlagHonest(writes: seq<seq<byte>>, limit: nat)
    ensures
      var lost := |Concat(writes)| > limit;
      (lost || EmptyWriteWhenFull(writes, limit) <==> lost)
      <==> !(|Concat(writes)| == limit && EmptyWriteWhenFull(writes, limit))
  {
    hide Concat;
    if EmptyWriteWhenFull(writes, limit) {
      var i :| 0 <= i < |writes| && writes[i] == [] && |Concat(writes[..i])| >= limit;
      ConcatGrows(writes, i);
    }
  }

  /** The flag can be set although nothing was lost. */
  lemma EmptyWriteTruncates(p: seq<byte>)
    ensures Concat([p] + [[]]) == p && EmptyWriteWhenFull([p] + [[]], |p|)
  {
    hide EmptyWriteWhenFull;
    var one := [p];
    assert one[..0] == [];
    assert Concat(one) == p;
    hide Concat;
    ConcatSnoc(one, []);
    EmptyWriteSnoc(one, [], |p|);
  }

  // ---------------------------------------------------------------------------------------------
  // VMLogs

  function Window(lines: int): (n: nat)
    ensures 1 <= lines <= 2000 ==> n == lines
    ensures lines < 1 || lines > 2000 ==> n == 300
  {
    if lines <= 0 || lines > 2000 then 300 else lines
  }

  function Last<T>(s: seq<T>, n: nat): (r: seq<T>) {
    if |s| <= n then s else s[|s| - n..]
  }

  lemma LastSnoc<T>(s: seq<T>, x: T, n: nat)
    requires n >= 1
    ensures Last(s + [x], n) == (if |s| < n then s else Last(s, n)[1..]) + [x]
  {
  }

  /** The last lines of a log: the window shifts by one place for each further line. */
  method VMLogs(scanned: seq<string>, lines: int) returns (out: seq<string>)
    ensures var n := if lines < 1 || lines > 2000 then 300 else lines;
            |out| == (if |scanned| > n then n else |scanned|) && out == scanned[|scanned| - |out|..]
  {
    var n := Window(lines);
    var window := new string[n];
    var len := 0;
    for i := 0 to |scanned|
      invariant len <= n && window[..len] == Last(scanned[..i], n)
    {
      LastSnoc(scanned[..i], scanned[i], n);
      assert scanned[..i + 1] == scanned[..i] + [scanned[i]];
      if len == n {
        ghost var before := window[..];
        ShiftLeft(window);
        window[len - 1] := scanned[i];
        assert window[..len] == before[1..] + [scanned[i]];
      } else {
        window[len] := scanned[i];
        len := len + 1;
      }
    }
    assert scanned[..|scanned|] == scanned && scanned[0..] == scanned;
    out := window[..len];
  }

  /** copy(out, out[1:]). */
  method ShiftLeft(a: array<string>)
    requires a.Length >= 1
    modifies a
    ensures a[..a.Length - 1] == old(a[1..])
  {
    for j := 0 to a.Length - 1
      invariant a[..j] == old(a[1..j + 1])
      invariant a[j..] == old(a[j..])
    {
      assert a[j..][1] == old(a[j..])[1];
      a[j] := a[j + 1];
    }
  }
}
