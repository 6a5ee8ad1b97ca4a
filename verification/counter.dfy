/**
 * The ripple counter `increment_vec_uint`: the scratch buffer is a
 * little-endian unsigned integer that is incremented in place; the call fails
 * once every byte has wrapped round, which ends the enumeration.
 */
module RangeCounter {
  import opened LittleEndian

  /**
   * What one increment does to a buffer: the new contents and whether the
   * call succeeded. The first byte below 255 gains one and the scan stops;
   * every 255 before it becomes 0; if there is no such byte, all bytes have
   * become 0 and the call fails.
   */
  function Incremented(s: seq<Byte>): (r: (seq<Byte>, bool))
    ensures |r.0| == |s|
  {
    if s == [] then ([], false)
    else if s[0] < 255 then ([s[0] + 1] + s[1..], true)
    else
      var rest := Incremented(s[1..]);
      ([0] + rest.0, rest.1)
  }

  /**
   * The increment in the scan's own terms: when bytes 0..i-1 are all 255,
   * they read 0 afterwards; if byte i is below 255 it gains one, the call
   * succeeds and the bytes after it are untouched; if there is no byte i the
   * call fails.
   */
  lemma {:induction false} IncrementedAfterCarry(s: seq<Byte>, i: nat)
    requires i <= |s|
    requires forall k :: 0 <= k < i ==> s[k] == 255
    requires i < |s| ==> s[i] < 255
    ensures i < |s| ==> Incremented(s) == (Zeros(i) + [s[i] + 1] + s[i + 1..], true)
    ensures i == |s| ==> Incremented(s) == (Zeros(|s|), false)
  {
    if i > 0 {
      IncrementedAfterCarry(s[1..], i - 1);
      assert Zeros(i) == [0] + Zeros(i - 1);
      if i < |s| {
        var tail := [s[i] + 1] + s[i + 1..];
        assert s[1..][i - 1] == s[i] && s[1..][i - 1 + 1..] == s[i + 1..];
        assert s[0] == 255 && Incremented(s[1..]).0 == Zeros(i - 1) + tail;
        assert [0] + (Zeros(i - 1) + tail) == Zeros(i) + [s[i] + 1] + s[i + 1..];
      }
    } else if i < |s| {
      assert Zeros(0) + [s[0] + 1] + s[1..] == [s[0] + 1] + s[1..];
    }
  }

  /**
   * Arithmetic meaning of one increment: it succeeds exactly when the value is
   * below 256^n - 1, and the buffer then holds value + 1; on failure it holds 0.
   */
  lemma {:induction false} IncrementedValue(s: seq<Byte>)
    ensures Incremented(s).1 <==> Value(s) + 1 < Pow256(|s|)
    ensures Value(Incremented(s).0) == if Incremented(s).1 then Value(s) + 1 else 0
  {
    if s != [] && s[0] == 255 {
      IncrementedValue(s[1..]);
      assert Incremented(s).0[1..] == Incremented(s[1..]).0;
    } else if s != [] {
      assert Incremented(s).0[1..] == s[1..];
    }
  }

  /** The increment fails exactly when every byte is 255 (the empty buffer included), and then leaves every byte 0. */
  lemma IncrementFailsAtMaximum(s: seq<Byte>)
    ensures !Incremented(s).1 <==> forall k :: 0 <= k < |s| ==> s[k] == 255
    ensures !Incremented(s).1 ==> Incremented(s).0 == Zeros(|s|)
  {
    IncrementedValue(s);
    if forall k :: 0 <= k < |s| ==> s[k] == 255 {
      AllMaxIsLargest(s);
      IncrementedAfterCarry(s, |s|);
    } else {
      var i :| 0 <= i < |s| && s[i] != 255;
      assert Value(s) + 1 < Pow256(|s|) by { ValueBelowMaxWhenSomeByteIs(s, i); }
    }
  }

  /** A buffer with some byte below 255 is below the largest value. */
  lemma {:induction false} ValueBelowMaxWhenSomeByteIs(s: seq<Byte>, i: nat)
    requires i < |s| && s[i] < 255
    ensures Value(s) + 1 < Pow256(|s|)
  {
    if i > 0 {
      ValueBelowMaxWhenSomeByteIs(s[1..], i - 1);
    }
  }

  /** Incrementing the encoding of v gives the encoding of v + 1, or fails when v is the largest value. */
  lemma IncrementEncoding(v: nat, n: nat)
    requires v < Pow256(n)
    ensures Incremented(Encode(v, n)) ==
              if v + 1 < Pow256(n) then (Encode(v + 1, n), true) else (Encode(0, n), false)
  {
    var s := Encode(v, n);
    ValueOfEncode(v, n);
    IncrementedValue(s);
    EncodeOfValue(Incremented(s).0);
  }

  /**
   * The scan's result, byte by byte: bytes before i were 255 and are now 0,
   * and either byte i gained one and the rest is untouched (success) or the
   * scan ran off the end (failure). That is exactly `Incremented`.
   */
  lemma ScanMatchesIncremented(before: seq<Byte>, after: seq<Byte>, i: nat, ok: bool)
    requires |after| == |before| && i <= |before|
    requires forall k :: 0 <= k < i ==> before[k] == 255 && after[k] == 0
    requires ok ==> i < |before| && before[i] < 255 && after[i] == before[i] + 1
    requires ok ==> forall k :: i < k < |before| ==> after[k] == before[k]
    requires !ok ==> i == |before|
    ensures (after, ok) == Incremented(before)
  {
    IncrementedAfterCarry(before, i);
    if ok {
      assert after == Zeros(i) + [before[i] + 1] + before[i + 1..];
    } else {
      assert after == Zeros(i);
    }
  }

  /** `zeros(size)` as the fresh buffer the search then increments in place. */
  method NewScratch(size: nat) returns (scratch: array<Byte>)
    ensures fresh(scratch)
    ensures scratch[..] == Zeros(size)
  {
    var zeros := Zeros(size);
    scratch := new Byte[size](i requires 0 <= i < size => zeros[i]);
  }

  /**
   * `increment_vec_uint`: increments the buffer in place. `ok` is the
   * `Ok(())` of the source, `!ok` its "end of search space" error.
   */
  method Increment(num: array<Byte>) returns (ok: bool)
    modifies num
    ensures (num[..], ok) == Incremented(old(num[..]))
    ensures ok <==> Value(old(num[..])) + 1 < Pow256(num.Length)
    ensures Value(num[..]) == if ok then Value(old(num[..])) + 1 else 0
  {
    ghost var before := num[..];
    IncrementedValue(before);
    for i := 0 to num.Length
      invariant forall k :: 0 <= k < i ==> before[k] == 255 && num[k] == 0
      invariant forall k :: i <= k < num.Length ==> num[k] == before[k]
    {
      if num[i] < 255 {
        num[i] := num[i] + 1;
        ScanMatchesIncremented(before, num[..], i, true);
        return true;
      } else if num[i] == 255 {
        num[i] := 0;
      }
    }
    ScanMatchesIncremented(before, num[..], num.Length, false);
    return false;
  }
}
