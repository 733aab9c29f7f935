/** The binary stream written by the serialisers, one item per write.

    Each item stands for the bytes the source's `write` call puts on the stream:
    a `bool` null flag (1 byte), a `double` (an opaque 8-byte word), a `size_t`
    count (an 8-byte word), or one byte of a name. A reader takes the items
    that are still unread and answers the value with the items after it. */
module Stream {
  import opened Base

  datatype Item = Flag(isNull: bool) | F64(r: real) | U64(n: nat) | Byte(c: char)

  function Width(i: Item): (w: nat)
    ensures w == 1 || w == 8
  {
    match i
    case Flag(_) => 1
    case F64(_) => 8
    case U64(_) => 8
    case Byte(_) => 1
  }

  /** Number of bytes the items occupy on the stream. */
  function ByteSize(s: seq<Item>): nat {
    if s == [] then 0 else Width(s[0]) + ByteSize(s[1..])
  }

  lemma {:induction false} ByteSizeAppend(a: seq<Item>, b: seq<Item>)
    ensures ByteSize(a + b) == ByteSize(a) + ByteSize(b)
  {
    if a == [] {
      assert a + b == b;
    } else {
      assert (a + b)[1..] == a[1..] + b;
      ByteSizeAppend(a[1..], b);
    }
  }

  /** Reading a `double`. The source's `read` never reports a failure; the
      model answers `None` at the end of the stream or on an item of another
      kind, where the source reads indeterminate bytes. */
  function ReadF64(s: seq<Item>): (r: Option<(real, seq<Item>)>)
    ensures r.Some? <==> s != [] && s[0].F64?
    ensures r.Some? ==> s[0] == F64(r.value.0) && r.value.1 == s[1..]
  {
    if s != [] && s[0].F64? then Some((s[0].r, s[1..])) else None
  }

  function ReadU64(s: seq<Item>): (r: Option<(nat, seq<Item>)>)
    ensures r.Some? <==> s != [] && s[0].U64?
    ensures r.Some? ==> s[0] == U64(r.value.0) && r.value.1 == s[1..]
  {
    if s != [] && s[0].U64? then Some((s[0].n, s[1..])) else None
  }

  function ReadFlag(s: seq<Item>): (r: Option<(bool, seq<Item>)>)
    ensures r.Some? <==> s != [] && s[0].Flag?
    ensures r.Some? ==> s[0] == Flag(r.value.0) && r.value.1 == s[1..]
  {
    if s != [] && s[0].Flag? then Some((s[0].isNull, s[1..])) else None
  }

  /** What each reader answers on the stream an item was written to. */
  lemma ReadWritten(i: Item, rest: seq<Item>)
    ensures i.F64? ==> ReadF64([i] + rest) == Some((i.r, rest))
    ensures i.U64? ==> ReadU64([i] + rest) == Some((i.n, rest))
    ensures i.Flag? ==> ReadFlag([i] + rest) == Some((i.isNull, rest))
  {
    assert ([i] + rest)[1..] == rest;
  }

  /** `n` bytes of a name, as `in.read(&name[0], n)` reads them. */
  function ReadBytes(s: seq<Item>, n: nat): (r: Option<(string, seq<Item>)>)
    ensures r.Some? ==> |r.value.0| == n && |r.value.1| + n == |s|
    decreases n
  {
    if n == 0 then Some(([], s))
    else if s != [] && s[0].Byte? then
      match ReadBytes(s[1..], n - 1)
      case None => None
      case Some((name, rest)) => Some(([s[0].c] + name, rest))
    else None
  }

  /** A successful read took its characters from the first `n` items, all
      bytes, and left the items after them. */
  lemma {:induction false} ReadBytesSpec(s: seq<Item>, n: nat)
    requires ReadBytes(s, n).Some?
    ensures n <= |s| && ReadBytes(s, n).value.1 == s[n..]
    ensures forall i :: 0 <= i < n ==> s[i] == Byte(ReadBytes(s, n).value.0[i])
    decreases n
  {
    if n > 0 {
      ReadBytesSpec(s[1..], n - 1);
      var r := ReadBytes(s, n).value.0;
      forall i | 0 <= i < n ensures s[i] == Byte(r[i]) {
        if i > 0 {
          assert r[i] == ReadBytes(s[1..], n - 1).value.0[i - 1];
          assert s[i] == s[1..][i - 1];
        }
      }
    }
  }

  /** `out.write(name.c_str(), name.size())`. */
  function WriteBytes(name: string): (s: seq<Item>)
    ensures |s| == |name|
  {
    if name == [] then [] else [Byte(name[0])] + WriteBytes(name[1..])
  }

  lemma {:induction false} WriteBytesSpec(name: string)
    ensures forall i :: 0 <= i < |name| ==> WriteBytes(name)[i] == Byte(name[i])
  {
    if name != [] {
      WriteBytesSpec(name[1..]);
      forall i | 0 < i < |name| ensures WriteBytes(name)[i] == Byte(name[i]) {
        assert WriteBytes(name)[i] == WriteBytes(name[1..])[i - 1];
      }
    }
  }

  /** A name written byte by byte reads back unchanged. */
  lemma {:induction false} ReadWriteBytes(name: string, rest: seq<Item>)
    ensures ReadBytes(WriteBytes(name) + rest, |name|) == Some((name, rest))
    decreases |name|
  {
    if name != [] {
      var s := WriteBytes(name) + rest;
      assert s == [Byte(name[0])] + (WriteBytes(name[1..]) + rest);
      assert s[1..] == WriteBytes(name[1..]) + rest;
      ReadWriteBytes(name[1..], rest);
      assert [name[0]] + name[1..] == name;
    } else {
      assert WriteBytes(name) + rest == rest;
    }
  }
}
