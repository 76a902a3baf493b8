/**
  Argument fragmentation: chunks inside fragments, and the list of arguments that a
  series of fragments stands for.
 */
module Fragments {

  type byte = x: int | 0 <= x < 256
  type Chunk = seq<byte>

  /** A checksum algorithm, applied to all data so far, and the type code it goes by. */
  datatype Checksum = Checksum(code: byte, sum: seq<byte> -> seq<byte>)

  /** A fragment on the wire. */
  datatype Fragment = Fragment(contents: seq<byte>, more: bool, kind: byte, sum: seq<byte>)

  /** How many bytes of a fragment are its checksum, by type code. */
  function ChecksumSize(kind: byte): nat {
    match kind
    case 1 => 4
    case 2 => 4
    case 3 => 4
    case _ => 0
  }

  /** The checksum of a fragment was cut out with the size of its type, and the fragment fits a frame. */
  predicate OnWire(f: Fragment) {
    |f.sum| == ChecksumSize(f.kind) && |f.contents| < 0x1_0000
  }

  /** All sums have the size that goes with the type code. */
  ghost predicate Sized(c: Checksum) {
    forall x :: |c.sum(x)| == ChecksumSize(c.code)
  }

  /** All sums have one length. */
  ghost predicate Uniform(c: Checksum) {
    forall x, y :: |c.sum(x)| == |c.sum(y)|
  }

  const NullChecksum := Checksum(0, (_: seq<byte>) => [])

  /** The checksums that the source knows, by type code; that of code 2, farmhash, is not implemented. */
  function StandardTable(crc32: seq<byte> -> seq<byte>, crc32c: seq<byte> -> seq<byte>): seq<Checksum> {
    [NullChecksum, Checksum(1, crc32), NullChecksum, Checksum(3, crc32c)]
  }

  const ChunkHeaderSize := 2

  // Chunks as bytes

  function EncodeUint16(n: nat): seq<byte>
    requires n < 0x1_0000
  {
    [n / 256, n % 256]
  }

  function DecodeUint16(high: byte, low: byte): nat {
    high as int * 256 + low
  }

  function Truncate16(n: nat): nat {
    n % 0x1_0000
  }

  lemma TruncateSmall(n: nat)
    requires n < 0x1_0000
    ensures Truncate16(n) == n
  {
  }

  predicate Fits(cs: seq<Chunk>) {
    forall i :: 0 <= i < |cs| ==> |cs[i]| < 0x1_0000
  }

  function EncodeChunk(c: Chunk): seq<byte>
    requires |c| < 0x1_0000
  {
    EncodeUint16(|c|) + c
  }

  function EncodeChunks(cs: seq<Chunk>): seq<byte>
    requires Fits(cs)
  {
    if cs == [] then [] else EncodeChunks(cs[..|cs| - 1]) + EncodeChunk(cs[|cs| - 1])
  }

  datatype Parsed = Chunks(chunks: seq<Chunk>) | BufferTooSmall | ChunkExceedsFragment

  /** Split the contents of a fragment into chunks.  The size check compares with the
      remaining size truncated to 16 bits. */
  function Parse(b: seq<byte>): Parsed
    decreases |b|
  {
    if b == [] then Chunks([])
    else if |b| < 2 then BufferTooSmall
    else
      var size := DecodeUint16(b[0], b[1]);
      if size > Truncate16(|b| - 2) then ChunkExceedsFragment
      else
        match Parse(b[2 + size..])
        case Chunks(cs) => Chunks([b[2..2 + size]] + cs)
        case failed => failed
  }

  lemma {:induction false} EncodeConcat(a: seq<Chunk>, b: seq<Chunk>)
    requires Fits(a) && Fits(b)
    ensures Fits(a + b) && EncodeChunks(a + b) == EncodeChunks(a) + EncodeChunks(b)
  {
    hide EncodeChunk;
    if b == [] {
      assert a + b == a;
    } else {
      var k := |b| - 1;
      EncodeConcat(a, b[..k]);
      assert (a + b)[..|a| + k] == a + b[..k] && (a + b)[|a| + k] == b[k];
      BytesAssociate(EncodeChunks(a), EncodeChunks(b[..k]), EncodeChunk(b[k]));
    }
  }

  lemma EncodeFront(c: Chunk, cs: seq<Chunk>)
    requires |c| < 0x1_0000 && Fits(cs)
    ensures Fits([c] + cs) && EncodeChunks([c] + cs) == EncodeChunk(c) + EncodeChunks(cs)
  {
    hide EncodeChunk;
    var one: seq<Chunk> := [c];
    assert one[..0] == [];
    assert EncodeChunks(one) == EncodeChunks([]) + EncodeChunk(c);
    assert EncodeChunks(one) == EncodeChunk(c);
    EncodeConcat(one, cs);
  }

  lemma BytesAssociate(a: seq<byte>, b: seq<byte>, c: seq<byte>)
    ensures (a + b) + c == a + (b + c)
  {
  }

  lemma HeaderOf(c: Chunk, rest: seq<byte>)
    requires |c| < 0x1_0000
    ensures var b := EncodeChunk(c) + rest;
      && |b| == 2 + |c| + |rest| && DecodeUint16(b[0], b[1]) == |c|
      && b[2..2 + |c|] == c && b[2 + |c|..] == rest
  {
    var n := |c|;
    assert n / 256 * 256 + n % 256 == n;
    assert EncodeUint16(n) == [n / 256, n % 256];
  }

  lemma ParseStep(c: Chunk, rest: seq<byte>)
    requires |c| + |rest| < 0x1_0000 && Parse(rest).Chunks?
    ensures Parse(EncodeChunk(c) + rest) == Chunks([c] + Parse(rest).chunks)
  {
    HeaderOf(c, rest);
    TruncateSmall(|c| + |rest|);
    hide EncodeChunk, DecodeUint16, Truncate16;
  }

  /** Parsing recovers the chunks of any fragment of at most 65535 bytes. */
  lemma {:induction false} ParseEncode(cs: seq<Chunk>)
    requires Fits(cs) && |EncodeChunks(cs)| < 0x1_0000
    ensures Parse(EncodeChunks(cs)) == Chunks(cs)
  {
    if cs != [] {
      hide EncodeChunks, EncodeChunk, Parse;
      var rest := cs[1..];
      assert cs == [cs[0]] + rest;
      EncodeFront(cs[0], rest);
      ParseEncode(rest);
      EncodedSize(cs[0]);
      ParseStep(cs[0], EncodeChunks(rest));
    }
  }

  lemma EncodedSize(c: Chunk)
    requires |c| < 0x1_0000
    ensures |EncodeChunk(c)| == |c| + 2
  {
  }

  lemma HeaderFrom(b: seq<byte>)
    requires |b| >= 2 && DecodeUint16(b[0], b[1]) + 2 <= |b|
    ensures var size := DecodeUint16(b[0], b[1]);
      size < 0x1_0000 && EncodeChunk(b[2..2 + size]) + b[2 + size..] == b
  {
    var size := DecodeUint16(b[0], b[1]);
    assert size / 256 == b[0] && size % 256 == b[1];
    assert EncodeUint16(size) == b[..2];
  }

  /** Nothing but an encoding is parsed: what was accepted is what was sent. */
  lemma {:induction false} EncodeParse(b: seq<byte>)
    requires Parse(b).Chunks?
    ensures Fits(Parse(b).chunks) && EncodeChunks(Parse(b).chunks) == b
    decreases |b|
  {
    hide DecodeUint16, Truncate16, EncodeChunk;
    if b != [] {
      var size := DecodeUint16(b[0], b[1]);
      TruncateAtMost(|b| - 2);
      var first, tail := b[2..2 + size], b[2 + size..];
      assert Parse(b) == Chunks([first] + Parse(tail).chunks);
      hide Parse;
      EncodeParse(tail);
      HeaderFrom(b);
      EncodeFront(first, Parse(tail).chunks);
    }
  }

  // Contents that cannot be parsed

  /** After some chunks a single byte is left. */
  ghost predicate CutShort(b: seq<byte>) {
    exists cs, x :: Fits(cs) && b == EncodeChunks(cs) + [x]
  }

  /** After some chunks there is one that claims more bytes than are left. */
  ghost predicate Overlong(b: seq<byte>) {
    exists cs, rest :: Fits(cs) && b == EncodeChunks(cs) + rest && OverlongChunk(rest)
  }

  predicate OverlongChunk(b: seq<byte>) {
    |b| >= 2 && DecodeUint16(b[0], b[1]) > |b| - 2
  }

  /** What follows a chunk decides whether parsing fails, and how. */
  lemma FailsAfterChunk(c: Chunk, rest: seq<byte>)
    requires |c| + |rest| < 0x1_0000
    ensures var p := Parse(EncodeChunk(c) + rest);
      p.Chunks? == Parse(rest).Chunks? && (!p.Chunks? ==> p == Parse(rest))
  {
    HeaderOf(c, rest);
    TruncateSmall(|c| + |rest|);
    hide EncodeChunk, DecodeUint16, Truncate16;
  }

  lemma {:induction false} FailsAfter(cs: seq<Chunk>, rest: seq<byte>)
    requires Fits(cs) && |EncodeChunks(cs) + rest| < 0x1_0000 && !Parse(rest).Chunks?
    ensures Parse(EncodeChunks(cs) + rest) == Parse(rest)
  {
    hide EncodeChunk, Parse;
    if cs == [] {
      assert EncodeChunks(cs) + rest == rest;
    } else {
      var tail := cs[1..];
      assert cs == [cs[0]] + tail;
      EncodeFront(cs[0], tail);
      EncodedSize(cs[0]);
      BytesAssociate(EncodeChunk(cs[0]), EncodeChunks(tail), rest);
      hide EncodeChunks;
      FailsAfter(tail, rest);
      FailsAfterChunk(cs[0], EncodeChunks(tail) + rest);
    }
  }

  lemma FailsAtOnce(b: seq<byte>)
    requires |b| < 0x1_0000
    ensures |b| == 1 ==> Parse(b) == BufferTooSmall
    ensures OverlongChunk(b) ==> Parse(b) == ChunkExceedsFragment
  {
    if |b| >= 2 {
      TruncateSmall(|b| - 2);
    }
  }

  lemma FailsHere(b: seq<byte>)
    ensures |b| == 1 ==> CutShort(b)
    ensures OverlongChunk(b) ==> Overlong(b)
  {
    assert EncodeChunks([]) + b == b && Fits([]);
    if |b| == 1 {
      assert b == EncodeChunks([]) + [b[0]];
    }
  }

  /** Where the first chunk is complete, parsing fails in what follows. */
  lemma FailsLater(b: seq<byte>) returns (first: Chunk, tail: seq<byte>)
    requires 2 <= |b| < 0x1_0000 && !OverlongChunk(b) && !Parse(b).Chunks?
    ensures |first| < 0x1_0000 && b == EncodeChunk(first) + tail && Parse(tail) == Parse(b)
  {
    TruncateSmall(|b| - 2);
    var size := DecodeUint16(b[0], b[1]);
    first, tail := b[2..2 + size], b[2 + size..];
    HeaderFrom(b);
  }

  lemma {:induction false} FailsWhere(b: seq<byte>)
    requires |b| < 0x1_0000 && !Parse(b).Chunks?
    ensures Parse(b) == BufferTooSmall ==> CutShort(b)
    ensures Parse(b) == ChunkExceedsFragment ==> Overlong(b)
    decreases |b|
  {
    FailsHere(b);
    FailsAtOnce(b);
    if |b| >= 2 && !OverlongChunk(b) {
      hide Parse, EncodeChunk, CutShort, Overlong;
      var first, tail := FailsLater(b);
      EncodedSize(first);
      FailsWhere(tail);
      FurtherBack(first, tail);
    }
  }

  lemma FurtherBack(c: Chunk, b: seq<byte>)
    requires |c| < 0x1_0000
    ensures CutShort(b) ==> CutShort(EncodeChunk(c) + b)
    ensures Overlong(b) ==> Overlong(EncodeChunk(c) + b)
  {
    hide EncodeChunk, EncodeChunks, Fits, OverlongChunk;
    if cs, x :| Fits(cs) && b == EncodeChunks(cs) + [x] {
      EncodeFront(c, cs);
      BytesAssociate(EncodeChunk(c), EncodeChunks(cs), [x]);
      assert EncodeChunk(c) + b == EncodeChunks([c] + cs) + [x];
    }
    if cs, rest :| Fits(cs) && b == EncodeChunks(cs) + rest && OverlongChunk(rest) {
      EncodeFront(c, cs);
      BytesAssociate(EncodeChunk(c), EncodeChunks(cs), rest);
      assert EncodeChunk(c) + b == EncodeChunks([c] + cs) + rest;
    }
  }

  /** Parsing fails exactly on contents that end in a single byte or in a chunk without all of its bytes. */
  lemma ParseFailsIff(b: seq<byte>)
    requires |b| < 0x1_0000
    ensures Parse(b) == BufferTooSmall <==> CutShort(b)
    ensures Parse(b) == ChunkExceedsFragment <==> Overlong(b)
    ensures Parse(b).Chunks? <==> exists cs :: Fits(cs) && b == EncodeChunks(cs)
  {
    hide Parse, EncodeChunks, Fits, OverlongChunk;
    if Parse(b).Chunks? {
      EncodeParse(b);
    } else {
      FailsWhere(b);
    }
    if cs, x :| Fits(cs) && b == EncodeChunks(cs) + [x] {
      FailsAtOnce([x]);
      FailsAfter(cs, [x]);
    }
    if cs, rest :| Fits(cs) && b == EncodeChunks(cs) + rest && OverlongChunk(rest) {
      FailsAtOnce(rest);
      FailsAfter(cs, rest);
    }
    if cs :| Fits(cs) && b == EncodeChunks(cs) {
      ParseEncode(cs);
    }
  }

  /** Beyond the size of a frame the truncated check refuses chunks that are complete. */
  lemma TruncationRefuses(b: seq<byte>)
    requires |b| == 2 + 0x1_0000 && (b[0] != 0 || b[1] != 0)
    ensures DecodeUint16(b[0], b[1]) <= |b| - 2 && Parse(b) == ChunkExceedsFragment
  {
  }

  lemma TruncateAtMost(n: nat)
    ensures Truncate16(n) <= n
  {
  }

  // What fragments mean

  /** Within a fragment every chunk belongs to the next argument; the first chunk of a
      fragment continues the last argument of the one before. */
  function Glue(a: seq<Chunk>, b: seq<Chunk>): seq<Chunk>
    requires a != [] && b != []
  {
    a[..|a| - 1] + [a[|a| - 1] + b[0]] + b[1..]
  }

  predicate NonEmpty(fs: seq<seq<Chunk>>) {
    fs != [] && forall i :: 0 <= i < |fs| ==> fs[i] != []
  }

  /** The arguments that a series of fragments stands for. */
  function Denote(fs: seq<seq<Chunk>>): (args: seq<Chunk>)
    requires NonEmpty(fs)
    ensures args != []
  {
    if |fs| == 1 then fs[0] else Glue(Denote(fs[..|fs| - 1]), fs[|fs| - 1])
  }

  lemma GlueAssociative(a: seq<Chunk>, b: seq<Chunk>, c: seq<Chunk>)
    requires a != [] && b != [] && c != []
    ensures Glue(Glue(a, b), c) == Glue(a, Glue(b, c))
  {
    if |b| == 1 {
      assert Glue(a, b) == a[..|a| - 1] + [a[|a| - 1] + b[0]];
      assert (a[|a| - 1] + b[0]) + c[0] == a[|a| - 1] + (b[0] + c[0]);
    }
  }

  /** The same from the front. */
  lemma {:induction false} DenoteFront(f: seq<Chunk>, fs: seq<seq<Chunk>>)
    requires f != [] && NonEmpty(fs)
    ensures NonEmpty([f] + fs) && Denote([f] + fs) == Glue(f, Denote(fs))
  {
    var all := [f] + fs;
    var k := |fs| - 1;
    assert all[..|all| - 1] == [f] + fs[..k] && all[|all| - 1] == fs[k];
    if k == 0 {
      assert [f] + fs[..0] == [f];
    } else {
      DenoteFront(f, fs[..k]);
      GlueAssociative(f, Denote(fs[..k]), fs[k]);
    }
  }

  // Arguments given piece by piece

  function ExtendLast(args: seq<Chunk>, b: Chunk): seq<Chunk>
    requires args != []
  {
    args[..|args| - 1] + [args[|args| - 1] + b]
  }

  lemma ExtendNothing(args: seq<Chunk>)
    requires args != []
    ensures ExtendLast(args, []) == args
  {
    assert args[|args| - 1] + [] == args[|args| - 1];
  }

  lemma ExtendTwice(args: seq<Chunk>, a: Chunk, b: Chunk)
    requires args != []
    ensures ExtendLast(ExtendLast(args, a), b) == ExtendLast(args, a + b)
  {
    assert (args[|args| - 1] + a) + b == args[|args| - 1] + (a + b);
  }

  // The bytes of all chunks, in order

  function Data(cs: seq<Chunk>): seq<byte> {
    if cs == [] then [] else Data(cs[..|cs| - 1]) + cs[|cs| - 1]
  }

  function AllData(fs: seq<seq<Chunk>>): seq<byte> {
    if fs == [] then [] else AllData(fs[..|fs| - 1]) + Data(fs[|fs| - 1])
  }

  /** Every chunk is in its place. */
  lemma {:induction false} DataAt(cs: seq<Chunk>, k: nat)
    requires k < |cs|
    ensures var o := |Data(cs[..k])|;
      o + |cs[k]| <= |Data(cs)| && Data(cs)[o..o + |cs[k]|] == cs[k] && Data(cs)[..o] == Data(cs[..k])
  {
    var n := |cs| - 1;
    if k < n {
      DataAt(cs[..n], k);
      assert cs[..n][..k] == cs[..k];
    }
  }

  lemma {:induction false} DataConcat(a: seq<Chunk>, b: seq<Chunk>)
    ensures Data(a + b) == Data(a) + Data(b)
  {
    if b == [] {
      assert a + b == a;
    } else {
      var k := |b| - 1;
      assert (a + b)[..|a| + k] == a + b[..k] && (a + b)[|a| + k] == b[k];
      DataConcat(a, b[..k]);
      BytesAssociate(Data(a), Data(b[..k]), b[k]);
    }
  }

  lemma DataGlue(a: seq<Chunk>, b: seq<Chunk>)
    requires a != [] && b != []
    ensures Data(Glue(a, b)) == Data(a) + Data(b)
  {
    var front, x, y, rest := a[..|a| - 1], a[|a| - 1], b[0], b[1..];
    assert b == [y] + rest;
    DataOne(x + y);
    DataOne(y);
    DataConcat(front, [x + y]);
    DataConcat(front + [x + y], rest);
    DataConcat([y], rest);
    assert Data(a) == Data(front) + x;
    BytesAssociate(Data(front), x, y);
    BytesAssociate(Data(front) + x, y, Data(rest));
  }

  lemma DataOne(c: Chunk)
    ensures Data([c]) == c
  {
    var one: seq<Chunk> := [c];
    assert one[..0] == [];
    assert Data(one) == Data([]) + c;
  }

  /** The data of all fragments are the arguments, one after the other, however they were cut. */
  lemma {:induction false} DataIsArguments(fs: seq<seq<Chunk>>)
    requires NonEmpty(fs)
    ensures AllData(fs) == Data(Denote(fs))
  {
    var k := |fs| - 1;
    if k == 0 {
      assert fs[..0] == [];
      assert AllData(fs) == AllData([]) + Data(fs[0]);
    } else {
      DataIsArguments(fs[..k]);
      DataGlue(Denote(fs[..k]), fs[k]);
    }
  }

  /** Fragment `i` of a series: its chunks as bytes, with the checksum of all data so far. */
  ghost predicate CarriesAt(f: Fragment, cs: seq<seq<Chunk>>, digest: Checksum, i: nat, more: bool)
    requires i < |cs|
  {
    && cs[i] != [] && Fits(cs[i]) && f.contents == EncodeChunks(cs[i]) && |f.contents| < 0x1_0000
    && f.more == more && f.kind == digest.code && f.sum == digest.sum(AllData(cs[..i + 1]))
  }

  /** A complete series: all but the last are marked as followed by more. */
  ghost predicate Carries(fs: seq<Fragment>, cs: seq<seq<Chunk>>, digest: Checksum) {
    && |fs| == |cs| && fs != []
    && forall i :: 0 <= i < |fs| ==> CarriesAt(fs[i], cs, digest, i, i < |fs| - 1)
  }

  lemma CarriesNonEmpty(fs: seq<Fragment>, cs: seq<seq<Chunk>>, digest: Checksum)
    requires Carries(fs, cs, digest)
    ensures NonEmpty(cs)
  {
    forall i | 0 <= i < |cs| ensures cs[i] != [] {
      assert CarriesAt(fs[i], cs, digest, i, i < |fs| - 1);
    }
  }
}
