/** Reading an HEVC byte stream: NAL units between start codes (Annex B of ITU-T H.265), emulation
    prevention (section 7.3.1.1) and Exp-Golomb numbers (section 9.2). Each undoes its inverse. */
module Hevc {
  import opened Wire
  import opened Windows

  // ---------- Annex B ----------

  const START_CODE: Bytes := [0, 0, 0, 1]

  predicate StartsAt(data: Bytes, i: nat) {
    i + 4 <= |data| && data[i] == 0 && data[i + 1] == 0 && data[i + 2] == 0 && data[i + 3] == 1
  }

  ghost predicate Clean(nal: Bytes) {
    forall i: nat :: !StartsAt(nal, i)
  }

  /** The first start code at or after from, or the end. */
  function FindFrom(data: Bytes, from: nat): (r: nat)
    requires from <= |data|
    ensures from <= r <= |data| && (r < |data| ==> StartsAt(data, r)) && forall i: nat :: from <= i < r ==>
      !StartsAt(data, i)
    decreases |data| - from
  {
    if from == |data| || StartsAt(data, from) then from else FindFrom(data, from + 1)
  }

  lemma WindowIs(data: Bytes, i: nat)
    requires i + 4 <= |data|
    ensures data[i..i + 4] == START_CODE <==> StartsAt(data, i)
  {
    var w := data[i..i + 4];
    assert w[0] == data[i] && w[1] == data[i + 1] && w[2] == data[i + 2] && w[3] == data[i + 3];
  }

  method FindStartCode(data: Bytes, from: nat) returns (r: Option<nat>)
    ensures if from <= |data| && FindFrom(data, from) < |data| then r == Some(FindFrom(data, from)) else r == None
  {
    if from >= |data| {
      return None;
    }
    var i := from;
    while i + 4 <= |data|
      invariant from <= i <= |data| && FindFrom(data, from) == FindFrom(data, i)
    {
      WindowIs(data, i);
      if data[i..i + 4] == START_CODE {
        return Some(i);
      }
      i := i + 1;
    }
    r := None;
  }

  /** The NAL units from position cursor on. */
  function Nals(data: Bytes, cursor: nat): (r: seq<Bytes>)
    requires cursor <= |data|
    decreases |data| - cursor
  {
    var start := FindFrom(data, cursor);
    if start == |data| then []
    else
      var end := FindFrom(data, start + 4);
      (if start + 4 < end then [data[start + 4..end]] else []) + Nals(data, end)
  }

  class AnnexBNalIter {
    const data: Bytes
    var cursor: nat

    constructor (data: Bytes)
      ensures this.data == data && cursor == 0
    {
      this.data, cursor := data, 0;
    }

    /** The next NAL unit that is not empty. */
    method Next() returns (nal: Option<Bytes>)
      requires cursor <= |data|
      modifies this
      ensures cursor <= |data| && (nal.Some? ==> old(cursor) < cursor)
      ensures old(Nals(data, cursor)) == if nal.Some? then [nal.value] + Nals(data, cursor) else []
    {
      hide Nals, FindFrom, StartsAt;
      while cursor < |data|
        invariant old(cursor) <= cursor <= |data| && Nals(data, cursor) == old(Nals(data, cursor))
        decreases |data| - cursor
      {
        NalsNext(data, cursor);
        var start := FindStartCode(data, cursor);
        if start.None? {
          return None;
        }
        var nalStart := start.value + 4;
        var nextStart := FindStartCode(data, nalStart);
        var nalEnd := if nextStart.Some? then nextStart.value else |data|;
        cursor := nalEnd;
        if nalStart < nalEnd {
          return Some(data[nalStart..nalEnd]);
        }
      }
      NalsNext(data, cursor);
      nal := None;
    }
  }

  lemma NalsNext(data: Bytes, cursor: nat)
    requires cursor <= |data|
    ensures var start := FindFrom(data, cursor);
      if start == |data| then Nals(data, cursor) == []
      else
        && cursor <= start && start + 4 <= |data|
        && var end := FindFrom(data, start + 4);
          start + 4 <= end <= |data| && Nals(data, cursor) ==
            (if start + 4 < end then [data[start + 4..end]] else []) + Nals(data, end)
  {}

  /** All NAL units of a stream. */
  method SplitAnnexB(data: Bytes) returns (nals: seq<Bytes>)
    ensures nals == Nals(data, 0)
  {
    var iter := new AnnexBNalIter(data);
    nals := [];
    while true
      invariant iter.cursor <= |data| && iter.data == data && Nals(data, 0) == nals + Nals(data, iter.cursor)
      decreases |data| - iter.cursor
    {
      var nal := iter.Next();
      if nal.None? {
        return;
      }
      nals := nals + [nal.value];
    }
  }

  /** NAL units with a start code before each. */
  function Joined(nals: seq<Bytes>): Bytes {
    if nals == [] then [] else START_CODE + nals[0] + Joined(nals[1..])
  }

  ghost predicate Splittable(nals: seq<Bytes>) {
    forall k :: 0 <= k < |nals| ==> nals[k] != [] && Clean(nals[k])
  }

  /** What follows a unit: nothing, or the zeros of the next start code. */
  ghost predicate Follows(tail: Bytes) {
    tail == [] || (|tail| >= 4 && StartsAt(tail, 0))
  }

  /** A start code cannot begin inside a clean unit, even where the next start code follows it. */
  lemma NoneInside(nal: Bytes, tail: Bytes, i: nat)
    requires Clean(nal) && Follows(tail) && i < |nal|
    ensures !StartsAt(nal + tail, i)
  {
    if i + 4 <= |nal| {
      assert !StartsAt(nal, i);
    } else if tail != [] {
      assert (nal + tail)[i + 3] == tail[i + 3 - |nal|] == 0;
    }
  }

  lemma FindShift(before: Bytes, rest: Bytes, k: nat)
    requires k <= |rest| && (forall i: nat :: i < k ==> !StartsAt(rest, i)) && (k == |rest| || StartsAt(rest, k))
    ensures FindFrom(before + rest, |before|) == |before| + k
  {
    hide StartsAt;
    forall j: nat | |before| <= j < |before| + k ensures !StartsAt(before + rest, j) {
      Shifted(before, rest, j - |before|); }
    if k < |rest| { Shifted(before, rest, k); }
    NoneBefore(before + rest, |before|, |before| + k);
  }

  lemma NoneBefore(data: Bytes, from: nat, end: nat)
    requires from <= end <= |data| && (forall i: nat :: from <= i < end ==> !StartsAt(data, i))
      && (end == |data| || StartsAt(data, end))
    ensures FindFrom(data, from) == end
  {
    hide StartsAt;
  }

  lemma Shifted(before: Bytes, rest: Bytes, i: nat)
    ensures StartsAt(before + rest, |before| + i) <==> StartsAt(rest, i)
  {}

  lemma JoinedFollows(rest: seq<Bytes>)
    ensures Follows(Joined(rest))
  {}

  lemma FindsHere(before: Bytes, rest: Bytes)
    ensures FindFrom(before + START_CODE + rest, |before|) == |before|
  {
    assert StartsAt(START_CODE + rest, 0);
    FindShift(before, START_CODE + rest, 0);
    assert before + (START_CODE + rest) == before + START_CODE + rest;
  }

  lemma FindsAfter(before: Bytes, nal: Bytes, tail: Bytes)
    requires Clean(nal) && Follows(tail)
    ensures FindFrom(before + (nal + tail), |before|) == |before| + |nal|
  {
    hide StartsAt, FindFrom, Clean;
    forall i: nat | i < |nal| ensures !StartsAt(nal + tail, i) { NoneInside(nal, tail, i); }
    if tail != [] { Shifted(nal, tail, 0); }
    FindShift(before, nal + tail, |nal|);
  }

  lemma FindsNext(before: Bytes, nal: Bytes, rest: seq<Bytes>)
    requires Clean(nal)
    ensures var data := before + START_CODE + nal + Joined(rest);
      && FindFrom(data, |before|) == |before| && FindFrom(data, |before| + 4) == |before| + 4 + |nal|
  {
    hide StartsAt, FindFrom, Clean, Joined;
    var tail := Joined(rest);
    JoinedFollows(rest);
    FindsHere(before, nal + tail);
    FindsAfter(before + START_CODE, nal, tail);
    assert before + START_CODE + (nal + tail) == before + START_CODE + nal + tail;
  }

  lemma {:induction false} SplitFrom(before: Bytes, nals: seq<Bytes>)
    requires Splittable(nals)
    ensures Nals(before + Joined(nals), |before|) == nals
    decreases |nals|
  {
    var data := before + Joined(nals);
    if nals == [] {
      assert data == before;
    } else {
      var nal, rest := nals[0], nals[1..];
      assert data == before + START_CODE + nal + Joined(rest);
      FindsNext(before, nal, rest);
      var before' := before + START_CODE + nal;
      assert data == before' + Joined(rest);
      SplitFrom(before', rest);
      assert data[|before| + 4..|before| + 4 + |nal|] == nal;
      assert nals == [nal] + rest;
    }
  }

  lemma {:induction false} NalsClean(data: Bytes, cursor: nat)
    requires cursor <= |data|
    ensures Splittable(Nals(data, cursor))
    decreases |data| - cursor
  {
    var start := FindFrom(data, cursor);
    if start < |data| {
      var end := FindFrom(data, start + 4);
      NalsClean(data, end);
      var nal := data[start + 4..end];
      forall i: nat ensures !StartsAt(nal, i) {
        if StartsAt(nal, i) { assert StartsAt(data, start + 4 + i); }
      }
    }
  }

  /** Splitting gives the units back exactly when none is empty and none contains a start code. */
  lemma SplitJoined(nals: seq<Bytes>)
    ensures Nals(Joined(nals), 0) == nals <==> Splittable(nals)
  {
    var none: Bytes := [];
    assert none + Joined(nals) == Joined(nals);
    if Splittable(nals) { SplitFrom(none, nals); }
    NalsClean(Joined(nals), 0);
  }

  // ---------- Emulation prevention ----------

  /** Bytes without emulation prevention, after a run of zeros. */
  function Unescaped(e: Bytes, zeros: nat): Bytes {
    if e == [] then []
    else if zeros >= 2 && e[0] == 3 then Unescaped(e[1..], 0)
    else [e[0]] + Unescaped(e[1..], if e[0] == 0 then zeros + 1 else 0)
  }

  method EbspToRbsp(ebsp: Bytes) returns (rbsp: Bytes)
    ensures rbsp == Unescaped(ebsp, 0)
  {
    rbsp := [];
    var zeroRun := 0;
    var i := 0;
    while i < |ebsp|
      invariant 0 <= i <= |ebsp| && Unescaped(ebsp, 0) == rbsp + Unescaped(ebsp[i..], zeroRun)
    {
      var b := ebsp[i];
      assert ebsp[i..][1..] == ebsp[i + 1..];
      i := i + 1;
      if zeroRun >= 2 && b == 3 {
        zeroRun := 0;
        continue;
      }
      rbsp := rbsp + [b];
      zeroRun := if b == 0 then zeroRun + 1 else 0;
    }
  }

  /** What an encoder writes: a 3 before every byte up to 3 that follows two zeros, and one at the end
      when the bytes end with two zeros. */
  function Escaped(r: Bytes, zeros: nat): Bytes {
    if r == [] then (if zeros >= 2 then [3] else [])
    else if zeros >= 2 && r[0] <= 3 then [3, r[0]] + Escaped(r[1..], if r[0] == 0 then 1 else 0)
    else [r[0]] + Escaped(r[1..], if r[0] == 0 then zeros + 1 else 0)
  }

  /** The reader undoes it. */
  lemma {:induction false} UnescapedEscaped(r: Bytes, zeros: nat)
    ensures Unescaped(Escaped(r, zeros), zeros) == r
  {
    var e := Escaped(r, zeros);
    if r == [] {
      if zeros >= 2 { assert e[1..] == []; }
    } else if zeros >= 2 && r[0] <= 3 {
      var z := if r[0] == 0 then 1 else 0;
      UnescapedEscaped(r[1..], z);
      assert e[1..] == [r[0]] + Escaped(r[1..], z);
      assert e[1..][1..] == Escaped(r[1..], z);
    } else {
      var z := if r[0] == 0 then zeros + 1 else 0;
      UnescapedEscaped(r[1..], z);
      assert e[1..] == Escaped(r[1..], z);
    }
  }

  /** No start code, and nothing like one, in what the encoder writes: two zeros are followed by more than 2. */
  ghost predicate Safe(e: Bytes, zeros: nat) {
    && (forall i: nat :: i + 3 <= |e| && e[i] == 0 && e[i + 1] == 0 ==> e[i + 2] > 2)
    && (zeros >= 1 && |e| >= 2 && e[0] == 0 ==> e[1] > 2)
    && (zeros >= 2 && |e| >= 1 ==> e[0] > 2)
  }

  lemma SafeCons(b: byte, e: Bytes, zeros: nat)
    requires Safe(e, if b == 0 then zeros + 1 else 0) && (zeros >= 2 ==> b > 2)
    ensures Safe([b] + e, zeros)
  {
    var f := [b] + e;
    forall i: nat | i + 3 <= |f| && f[i] == 0 && f[i + 1] == 0 ensures f[i + 2] > 2 {
      if i > 0 { var j: nat := i - 1; assert e[j] == 0 && e[j + 1] == 0; }
    }
  }

  lemma SafeEnd(zeros: nat)
    requires zeros <= 2
    ensures Safe(Escaped([], zeros), zeros)
  {}

  /** One step of the encoder. */
  lemma EscapedStep(r: Bytes, zeros: nat)
    requires r != []
    ensures Escaped(r, zeros) ==
      if zeros >= 2 && r[0] <= 3 then [3] + ([r[0]] + Escaped(r[1..], if r[0] == 0 then 1 else 0))
      else [r[0]] + Escaped(r[1..], if r[0] == 0 then zeros + 1 else 0)
  {
    assert [3] + ([r[0]] + Escaped(r[1..], if r[0] == 0 then 1 else 0)) ==
      [3, r[0]] + Escaped(r[1..], if r[0] == 0 then 1 else 0);
  }

  lemma {:induction false} EscapedSafe(r: Bytes, zeros: nat)
    requires zeros <= 2
    ensures Safe(Escaped(r, zeros), zeros)
  {
    hide Safe, Escaped;
    if r == [] {
      SafeEnd(zeros);
    } else {
      EscapedStep(r, zeros);
      if zeros >= 2 && r[0] <= 3 {
        var z := if r[0] == 0 then 1 else 0;
        EscapedSafe(r[1..], z);
        SafeCons(r[0], Escaped(r[1..], z), 0);
        SafeCons(3, [r[0]] + Escaped(r[1..], z), zeros);
      } else {
        var z := if r[0] == 0 then zeros + 1 else 0;
        EscapedSafe(r[1..], z);
        SafeCons(r[0], Escaped(r[1..], z), zeros);
      }
    }
  }

  /** A stream of escaped payloads, split and unescaped, gives the payloads back. */
  lemma StreamRoundTrip(payloads: seq<Bytes>, nals: seq<Bytes>)
    requires |nals| == |payloads| && forall k :: 0 <= k < |nals| ==>
      payloads[k] != []
      && nals[k] == Escaped(payloads[k], 0)
    ensures Nals(Joined(nals), 0) == nals && forall k :: 0 <= k < |nals| ==> Unescaped(nals[k], 0) == payloads[k]
  {
    forall k | 0 <= k < |nals| ensures nals[k] != [] && Clean(nals[k]) && Unescaped(nals[k], 0) == payloads[k] {
      UnescapedEscaped(payloads[k], 0);
      EscapedSafe(payloads[k], 0);
      forall i: nat ensures !StartsAt(nals[k], i) {}
    }
    SplitJoined(nals);
  }

  // ---------- Bits ----------

  /** Bit k of a byte, the most significant first. */
  function BitOf(b: byte, k: nat): bool
    requires k < 8
  {
    b / Pow2(7 - k) % 2 == 1
  }

  function Bits(data: Bytes): (r: seq<bool>)
    ensures |r| == 8 * |data|
  {
    seq(8 * |data|, i requires 0 <= i < 8 * |data| => BitOf(data[i / 8], i % 8))
  }

  /** The number that bits write, the most significant first. */
  function ValueOf(bits: seq<bool>): (v: nat)
    ensures v < Pow2(|bits|)
  {
    if bits == [] then 0 else 2 * ValueOf(bits[..|bits| - 1]) + if bits[|bits| - 1] then 1 else 0
  }

  /** The zeros from pos on before the first one, or before the end. */
  function ZerosAt(bits: seq<bool>, pos: nat): (z: nat)
    requires pos <= |bits|
    ensures pos + z <= |bits| && (pos + z < |bits| ==> bits[pos + z]) && forall i :: pos <= i < pos + z ==> !bits[i]
    decreases |bits| - pos
  {
    if pos == |bits| || bits[pos] then 0 else 1 + ZerosAt(bits, pos + 1)
  }

  /** The Exp-Golomb number at pos and the position behind it; none when it has more than 31 leading zeros or
      the bits end. */
  function UeAt(bits: seq<bool>, pos: nat): Option<(nat, nat)>
    requires pos <= |bits|
  {
    var z := ZerosAt(bits, pos);
    if z > 31 || pos + 2 * z + 1 > |bits| then None
    else Some((Pow2(z) - 1 + ValueOf(bits[pos + z + 1..pos + 2 * z + 1]), pos + 2 * z + 1))
  }

  /** The number in n bits from pos on. */
  function BitsValue(bits: seq<bool>, pos: nat, n: nat): nat
    requires n > 0 ==> pos + n <= |bits|
  {
    if n == 0 then 0 else ValueOf(bits[pos..pos + n])
  }

  /** One more bit in a 32-bit number. */
  function Pushed(v: nat, bit: nat): nat { (2 * v + bit) % U32 }

  function BitsAt(bits: seq<bool>, pos: nat, n: nat): Option<nat> {
    if n > 32 || (n > 0 && pos + n > |bits|) then None else Some(BitsValue(bits, pos, n))
  }

  lemma PowerOf32()
    ensures Pow2(32) == U32
  {
    PowerTable();
    assert Pow2(9) == 2 * Pow2(8) && Pow2(8) == 2 * Pow2(7);
    assert Pow2(12) == 2 * Pow2(11) && Pow2(10) == 2 * Pow2(9);
    assert Pow2(14) == 2 * Pow2(13);
    assert Pow2(16) == 2 * Pow2(15);
    assert Pow2(18) == 2 * Pow2(17);
    assert Pow2(20) == 2 * Pow2(19);
    assert Pow2(22) == 2 * Pow2(21);
    assert Pow2(24) == 2 * Pow2(23);
    assert Pow2(26) == 2 * Pow2(25);
    assert Pow2(28) == 2 * Pow2(27);
    assert Pow2(30) == 2 * Pow2(29);
    assert Pow2(32) == 2 * Pow2(31);
  }

  class BitReader {
    const data: Bytes
    var bitPos: nat

    constructor (data: Bytes, bitPos: nat)
      ensures this.data == data && this.bitPos == bitPos
    {
      this.data, this.bitPos := data, bitPos;
    }

    method ReadBit() returns (bit: Option<nat>)
      modifies this
      ensures if old(bitPos) >= 8 * |data| then bit == None && bitPos == old(bitPos)
              else bitPos == old(bitPos) + 1 && bit == Some(if Bits(data)[old(bitPos)] then 1 else 0)
    {
      if bitPos >= |data| * 8 {
        return None;
      }
      var b := data[bitPos / 8];
      var shift := 7 - bitPos % 8;
      bitPos := bitPos + 1;
      bit := Some(b / Pow2(shift) % 2);
    }

    /** n bits as a 32-bit number. */
    method ReadBits(n: nat) returns (value: Option<nat>)
      modifies this
      ensures value == BitsAt(Bits(data), old(bitPos), n)
      ensures value.Some? ==> bitPos == old(bitPos) + n
    {
      var remaining := if bitPos <= 8 * |data| then 8 * |data| - bitPos else 0;
      if n > 32 || remaining < n {
        return None;
      }
      hide Bits, BitsValue, Pushed;
      ghost var bits, from := Bits(data), bitPos;
      var v := 0;
      BitsNone(bits, from);
      var i := 0;
      while i < n
        invariant 0 <= i <= n && bitPos == from + i && v == BitsValue(bits, from, i)
      {
        var bit := ReadBit();
        BitsNext(bits, from, i);
        v := Pushed(v, bit.value);
        i := i + 1;
      }
      value := Some(v);
    }

    lemma BitsNone(bits: seq<bool>, from: nat)
      ensures BitsValue(bits, from, 0) == 0
    {}

    lemma BitsNext(bits: seq<bool>, from: nat, i: nat)
      requires from + i < |bits| && i < 32
      ensures BitsValue(bits, from, i + 1) == Pushed(BitsValue(bits, from, i), if bits[from + i] then 1 else 0)
    {
      hide Pow2;
      assert bits[from..from + i + 1][..i] == bits[from..from + i];
      NoWrap(bits[from..from + i + 1]);
    }

    lemma NoWrap(b: seq<bool>)
      requires |b| <= 32
      ensures ValueOf(b) < U32
    {
      hide Pow2, ValueOf;
      PowerOf32();
      PowGrows(|b|, 32);
    }

    /** An unsigned Exp-Golomb number. */
    method ReadUe() returns (value: Option<nat>)
      requires bitPos <= 8 * |data|
      modifies this
      ensures var u := UeAt(Bits(data), old(bitPos));
        if u.None? then value == None else value == Some(u.value.0) && bitPos == u.value.1
    {
      hide Bits, Pow2, ValueOf;
      ghost var bits, from := Bits(data), bitPos;
      var zeros := 0;
      var bit := ReadBit();
      while bit == Some(0)
        invariant 0 <= zeros <= 31 && from + zeros <= |bits| && (forall i :: from <= i < from + zeros ==> !bits[i])
        invariant if from + zeros == |bits| then bit == None
                  else bitPos == from + zeros + 1 && bit == Some(if bits[from + zeros] then 1 else 0)
        decreases 32 - zeros
      {
        zeros := zeros + 1;
        if zeros > 31 {
          return None;
        }
        bit := ReadBit();
      }
      if bit.None? {
        return None;
      }
      assert ZerosAt(bits, from) == zeros;
      if zeros == 0 {
        assert bits[from + 1..from + 1] == [];
        NoBits();
        return Some(0);
      }
      var suffix := ReadBits(zeros);
      if suffix.None? {
        return None;
      }
      value := Some(Pow2(zeros) - 1 + suffix.value);
    }

    lemma NoBits()
      ensures ValueOf([]) == 0 && Pow2(0) == 1
    {}
  }

  // ---------- Exp-Golomb codes ----------

  function BitsOf(x: nat, n: nat): (r: seq<bool>)
    ensures |r| == n
  {
    if n == 0 then [] else BitsOf(x / 2, n - 1) + [x % 2 == 1]
  }

  lemma {:induction false} ValueBits(x: nat, n: nat)
    requires x < Pow2(n)
    ensures ValueOf(BitsOf(x, n)) == x
  {
    if n > 0 {
      ValueBits(x / 2, n - 1);
      assert BitsOf(x, n)[..n - 1] == BitsOf(x / 2, n - 1);
    }
  }

  function Log2(m: nat): (n: nat)
    requires m >= 1
    ensures Pow2(n) <= m < 2 * Pow2(n)
  {
    if m == 1 then 0 else 1 + Log2(m / 2)
  }

  function Falses(n: nat): (r: seq<bool>)
    ensures |r| == n
  {
    seq(n, _ => false)
  }

  /** The code of v: as many zeros as there are bits below the leading one of v + 1, then v + 1 itself. */
  function Ue(v: nat): (r: seq<bool>)
    ensures |r| == 2 * Log2(v + 1) + 1
  {
    var n := Log2(v + 1);
    Falses(n) + [true] + BitsOf(v + 1 - Pow2(n), n)
  }

  /** Reading the code of v, at any position and whatever follows, gives v and consumes the code, exactly
      when v is at most 2^32 - 2. */
  lemma UeRoundTrip(before: seq<bool>, v: nat, after: seq<bool>)
    ensures UeAt(before + Ue(v) + after, |before|) == Some((v, |before| + |Ue(v)|)) <==> v <= U32 - 2
  {
    hide Pow2, ValueOf, BitsOf;
    var bits, n, from := before + Ue(v) + after, Log2(v + 1), |before|;
    assert forall i :: from <= i < from + n ==> !bits[i];
    assert bits[from + n];
    assert ZerosAt(bits, from) == n;
    PowerOf32();
    if n > 31 {
      PowGrows(32, n);
    } else {
      PowGrows(n, 31);
      assert 2 * Pow2(31) == U32 by { assert Pow2(32) == 2 * Pow2(31) by { PowStep(31); } }
      assert bits[from + n + 1..from + 2 * n + 1] == BitsOf(v + 1 - Pow2(n), n);
      ValueBits(v + 1 - Pow2(n), n);
    }
  }

  lemma PowStep(n: nat)
    ensures Pow2(n + 1) == 2 * Pow2(n)
  {}
}
