/** Fixed-width integers over untrusted bytes, and the epoch tag of a snapshot. */
module Epoch {
  import opened Basics
  import opened Locators
  import opened Uri
  import opened UriRoundTrip

  // ---- bounded readers ----

  function PowerOf256(width: nat): nat {
    if width == 0 then 1 else 0x100 * PowerOf256(width - 1)
  }

  // Most significant byte first.
  function FromBigEndian(bytes: seq<byte>): nat {
    if bytes == [] then 0 else FromBigEndian(bytes[..|bytes| - 1]) * 0x100 + bytes[|bytes| - 1]
  }

  // Least significant byte first.
  function FromLittleEndian(bytes: seq<byte>): nat {
    if bytes == [] then 0 else bytes[0] + 0x100 * FromLittleEndian(bytes[1..])
  }

  function ToBigEndian(n: nat, width: nat): (bytes: seq<byte>)
    ensures |bytes| == width
  {
    if width == 0 then [] else ToBigEndian(n / 0x100, width - 1) + [n % 0x100]
  }

  // The window of `width` bytes at `off`, unless it overflows or runs past the end.
  function WindowAt(data: seq<byte>, off: usize, width: nat): Option<seq<byte>> {
    if off + width >= U64_MODULUS || off + width > |data| then None else Some(data[off..off + width])
  }

  // Out of range reads as 0.
  function ReadBigEndian(data: seq<byte>, off: usize, width: nat): nat {
    match WindowAt(data, off, width)
    case None => 0
    case Some(bytes) => FromBigEndian(bytes)
  }

  function ReadLittleEndian(data: seq<byte>, off: usize, width: nat): nat {
    match WindowAt(data, off, width)
    case None => 0
    case Some(bytes) => FromLittleEndian(bytes)
  }

  lemma {:induction false} BigEndianRoundTrip(n: nat, width: nat)
    requires n < PowerOf256(width)
    ensures FromBigEndian(ToBigEndian(n, width)) == n
  {
    if width > 0 {
      BigEndianRoundTrip(n / 0x100, width - 1);
      var bytes := ToBigEndian(n, width);
      assert bytes[..width - 1] == ToBigEndian(n / 0x100, width - 1);
    }
  }

  lemma {:induction false} BigEndianIsExact(bytes: seq<byte>)
    ensures ToBigEndian(FromBigEndian(bytes), |bytes|) == bytes
  {
    if bytes != [] {
      var n := |bytes| - 1;
      BigEndianIsExact(bytes[..n]);
      assert bytes == bytes[..n] + [bytes[n]];
    }
  }

  lemma {:induction false} BigEndianBound(bytes: seq<byte>)
    ensures FromBigEndian(bytes) < PowerOf256(|bytes|)
  {
    if bytes != [] {
      BigEndianBound(bytes[..|bytes| - 1]);
    }
  }

  function Reversed(bytes: seq<byte>): (r: seq<byte>)
    ensures |r| == |bytes|
  {
    if bytes == [] then [] else Reversed(bytes[1..]) + [bytes[0]]
  }

  // The two byte orders read reversed windows alike.
  lemma {:induction false} OrdersMirror(bytes: seq<byte>)
    ensures FromLittleEndian(bytes) == FromBigEndian(Reversed(bytes))
  {
    if bytes != [] {
      OrdersMirror(bytes[1..]);
      assert Reversed(bytes)[..|bytes| - 1] == Reversed(bytes[1..]);
    }
  }

  // A bounded read of `width` bytes fits its type, is 0 when the window leaves the
  // data, and otherwise spells exactly the bytes of the window.
  lemma BoundedReads(data: seq<byte>, off: usize, width: nat)
    ensures ReadBigEndian(data, off, width) < PowerOf256(width)
    ensures ReadLittleEndian(data, off, width) < PowerOf256(width)
    ensures off + width > |data| ==> ReadBigEndian(data, off, width) == 0 && ReadLittleEndian(data, off, width) == 0
    ensures off + width <= |data| && off + width < U64_MODULUS ==>
              && ToBigEndian(ReadBigEndian(data, off, width), width) == data[off..off + width]
              && ToBigEndian(ReadLittleEndian(data, off, width), width) == Reversed(data[off..off + width])
  {
    hide FromBigEndian, FromLittleEndian, ToBigEndian, Reversed, PowerOf256;
    PowersArePositive(width);
    match WindowAt(data, off, width)
    case None =>
    case Some(bytes) => NumeralsAreExact(bytes);
  }

  lemma {:induction false} PowersArePositive(width: nat)
    ensures PowerOf256(width) > 0
  {
    if width > 0 {
      PowersArePositive(width - 1);
    }
  }

  // Both byte orders fit the width and determine the bytes.
  lemma NumeralsAreExact(bytes: seq<byte>)
    ensures FromBigEndian(bytes) < PowerOf256(|bytes|) && ToBigEndian(FromBigEndian(bytes), |bytes|) == bytes
    ensures FromLittleEndian(bytes) < PowerOf256(|bytes|)
    ensures ToBigEndian(FromLittleEndian(bytes), |bytes|) == Reversed(bytes)
  {
    hide FromBigEndian, FromLittleEndian, ToBigEndian, Reversed, PowerOf256;
    BigEndianBound(bytes);
    BigEndianIsExact(bytes);
    OrdersMirror(bytes);
    BigEndianBound(Reversed(bytes));
    BigEndianIsExact(Reversed(bytes));
  }

  // ---- lexicographic order ----

  predicate LexLess(a: seq<byte>, b: seq<byte>)
    requires |a| == |b|
  {
    a != [] && (a[0] < b[0] || (a[0] == b[0] && LexLess(a[1..], b[1..])))
  }

  lemma {:induction false} LexSnoc(a: seq<byte>, b: seq<byte>, x: byte, y: byte)
    requires |a| == |b|
    ensures LexLess(a + [x], b + [y]) <==> LexLess(a, b) || (a == b && x < y)
  {
    if a != [] {
      LexSnoc(a[1..], b[1..], x, y);
      assert (a + [x])[1..] == a[1..] + [x] && (b + [y])[1..] == b[1..] + [y];
      assert a == [a[0]] + a[1..] && b == [b[0]] + b[1..];
    }
  }

  // Equal-width numerals compare as the numbers they stand for.
  lemma {:induction false} LexIsNumeric(a: seq<byte>, b: seq<byte>)
    requires |a| == |b|
    ensures LexLess(a, b) <==> FromBigEndian(a) < FromBigEndian(b)
    ensures a == b <==> FromBigEndian(a) == FromBigEndian(b)
  {
    if a != [] {
      var n := |a| - 1;
      LexIsNumeric(a[..n], b[..n]);
      assert a == a[..n] + [a[n]] && b == b[..n] + [b[n]];
      LexSnoc(a[..n], b[..n], a[n], b[n]);
    }
  }

  lemma {:induction false} CommonPrefix(prefix: seq<byte>, a: seq<byte>, b: seq<byte>)
    requires |a| == |b|
    ensures LexLess(prefix + a, prefix + b) <==> LexLess(a, b)
  {
    if prefix == [] {
      assert prefix + a == a && prefix + b == b;
    } else {
      CommonPrefix(prefix[1..], a, b);
      assert (prefix + a)[1..] == prefix[1..] + a && (prefix + b)[1..] == prefix[1..] + b;
    }
  }

  // ---- the tag ----

  // Twenty-four zero bytes, then the time, most significant byte first.
  function EpochFromCreateTime(time: u64): (tag: seq<byte>)
    ensures |tag| == 32
  {
    seq(24, _ => 0) + ToBigEndian(time, 8)
  }

  method RunEpochFromCreateTime(time: u64) returns (tag: array<byte>)
    ensures fresh(tag) && tag[..] == EpochFromCreateTime(time)
  {
    tag := new byte[32](_ => 0);
    var be := ToBigEndian(time, 8);
    forall i | 0 <= i < 8 {
      tag[24 + i] := be[i];
    }
    assert tag[..24] == seq(24, _ => 0);
    assert tag[24..] == be;
    assert tag[..] == tag[..24] + tag[24..];
  }

  lemma U64Fits(time: u64)
    ensures time < PowerOf256(8)
  {
    assert PowerOf256(1) == 0x100;
    assert PowerOf256(2) == 0x1_0000;
    assert PowerOf256(4) == 0x1_0000_0000;
    assert PowerOf256(6) == 0x1_0000_0000_0000;
    assert PowerOf256(8) == U64_MODULUS;
  }

  // The bounded reader at offset 24 gives the time back; before it there are zeros.
  lemma TagReadsBack(time: u64)
    ensures ReadBigEndian(EpochFromCreateTime(time), 24, 8) == time
    ensures forall i :: 0 <= i < 24 ==> EpochFromCreateTime(time)[i] == 0
  {
    assert EpochFromCreateTime(time)[24..32] == ToBigEndian(time, 8);
    U64Fits(time);
    BigEndianRoundTrip(time, 8);
  }

  // An order embedding: tags compare, byte by byte, exactly as times do.
  lemma TagsOrderAsTimes(a: u64, b: u64)
    ensures LexLess(EpochFromCreateTime(a), EpochFromCreateTime(b)) <==> a < b
    ensures EpochFromCreateTime(a) == EpochFromCreateTime(b) <==> a == b
  {
    U64Fits(a);
    U64Fits(b);
    BigEndianRoundTrip(a, 8);
    BigEndianRoundTrip(b, 8);
    CommonPrefix(seq(24, _ => 0), ToBigEndian(a, 8), ToBigEndian(b, 8));
    LexIsNumeric(ToBigEndian(a, 8), ToBigEndian(b, 8));
    TagReadsBack(a);
    TagReadsBack(b);
  }

  // ---- snapshot views ----

  datatype SnapshotView = SnapshotView(epoch: seq<byte>, xid: u64, name: string, locator: Locator)

  function ViewSnapshot(sourceSpec: Locator, xid: u64, name: string, createTime: u64): SnapshotView {
    SnapshotView(EpochFromCreateTime(createTime), xid, name, sourceSpec.Push(SnapshotLayer(ApfsXid(xid))))
  }

  // A view's locator survives its URI, names the same snapshot of the same source,
  // and its tag reads back as the time it was taken.
  lemma ViewsReopen(known: seq<FsKind>, sourceSpec: Locator, xid: u64, name: string, createTime: u64)
    requires ValidKinds(known) && KnownKinds(known, sourceSpec.Layers())
    ensures var view := ViewSnapshot(sourceSpec, xid, name, createTime);
            && FromUri(known, ToUri(view.locator)) == Ok(view.locator)
            && view.locator.Layers() == sourceSpec.Layers() + [SnapshotLayer(ApfsXid(xid))]
            && view.locator.Base() == sourceSpec.Base()
            && ReadBigEndian(view.epoch, 24, 8) == createTime
            && view.xid == xid && view.name == name
  {
    TagReadsBack(createTime);
    UriRoundTrips(known, ViewSnapshot(sourceSpec, xid, name, createTime).locator);
  }
}
