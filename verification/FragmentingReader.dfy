/**
  The fragmenting reader: fragments are split into chunks again, and chunks are given
  out as arguments.
 */
module FragmentingReaders {
  import opened Fragments

  datatype ReadError =
    | NoError
    | AlreadyReading
    | NotReading
    | AlreadyComplete
    | MoreDataInArgument
    | ExpectedMoreArguments
    | NoMoreFragments
    | ReceiveFailed(reason: Ending)
    | UnknownChecksum   // the source indexes its table of checksums out of range here
    | MismatchedChecksumTypes
    | BadBuffer
    | BadChunkSize
    | BadChecksum
    | NoChunks          // the source indexes an empty list here

  datatype ReaderState = Start | InArgument | InLastArgument | Waiting | Complete

  /** Why no more fragments come: an error frame from the other side, or anything else. */
  datatype Ending = SystemError(code: byte) | ConnectionFailed

  /** The checksum that the first fragment brought along. */
  datatype Running = NotStarted | Running(c: Checksum)

  /** The checksum that a fragment is checked with, if it fits. */
  function Choose(f: Fragment, running: Running, table: seq<Checksum>): Running {
    match running
    case NotStarted => if f.kind < |table| then Running.Running(table[f.kind]) else NotStarted
    case Running(c) => if c.code == f.kind then running else NotStarted
  }

  /** What receiving a fragment comes to. */
  function Verdict(f: Fragment, running: Running, summed: seq<byte>, table: seq<Checksum>): ReadError {
    match Choose(f, running, table)
    case NotStarted => if running == NotStarted then UnknownChecksum else MismatchedChecksumTypes
    case Running(c) =>
      match Parse(f.contents)
      case BufferTooSmall => BadBuffer
      case ChunkExceedsFragment => BadChunkSize
      case Chunks(cs) =>
        if f.sum != c.sum(summed + Data(cs)) then BadChecksum
        else if cs == [] then NoChunks
        else NoError
  }

  /** The source fails on a fragment that is empty and has the checksum of what came before, and on no other. */
  lemma NoChunksIff(f: Fragment, running: Running, summed: seq<byte>, table: seq<Checksum>)
    ensures Verdict(f, running, summed, table) == NoChunks <==>
      && f.contents == [] && Choose(f, running, table).Running?
      && f.sum == Choose(f, running, table).c.sum(summed)
  {
    assert Data([]) == [] && summed + [] == summed;
    if Parse(f.contents) == Chunks([]) {
      EncodeParse(f.contents);
      assert EncodeChunks([]) == [];
    }
  }

  /** The first fragment of a message, without contents and with no checksum. */
  lemma EmptyFragmentFails(more: bool, crc32: seq<byte> -> seq<byte>, crc32c: seq<byte> -> seq<byte>)
    ensures var f := Fragment([], more, 0, []);
      OnWire(f) && Verdict(f, NotStarted, [], StandardTable(crc32, crc32c)) == NoChunks
  {
    NoChunksIff(Fragment([], more, 0, []), NotStarted, [], StandardTable(crc32, crc32c));
  }

  /** A fragment as it comes in, with a checksum of type `k`, that is accepted. */
  predicate Accepts(f: Fragment, k: byte, running: Running, summed: seq<byte>, table: seq<Checksum>) {
    f.kind == k && OnWire(f) && Verdict(f, running, summed, table) == NoError
  }

  lemma EmptyChunkParses()
    ensures Fits([[]]) && |EncodeChunks([[]])| == 2 && Parse(EncodeChunks([[]])) == Chunks([[]]) && Data([[]]) == []
  {
    var one: seq<Chunk> := [[]];
    assert one[..0] == [];
    assert EncodeChunks(one) == EncodeChunks([]) + EncodeChunk([]);
    assert Data(one) == Data([]) + [];
    ParseEncode(one);
  }

  /** A message can begin with a checksum of type `k` exactly when its sums have the size that goes with `k`. */
  lemma BeginsIff(k: byte, table: seq<Checksum>)
    requires k < |table| && Uniform(table[k])
    ensures (exists f :: Accepts(f, k, NotStarted, [], table)) <==> |table[k].sum([])| == ChecksumSize(k)
  {
    hide Parse;
    if f :| Accepts(f, k, NotStarted, [], table) {
      assert f.sum == table[k].sum([] + Data(Parse(f.contents).chunks));
    }
    if |table[k].sum([])| == ChecksumSize(k) {
      EmptyChunkParses();
      var f := Fragment(EncodeChunks([[]]), false, k, table[k].sum([] + Data([[]])));
      assert Accepts(f, k, NotStarted, [], table);
    }
  }

  /** It can go on to further fragments exactly when that checksum also goes by the code it is found under. */
  lemma GoesOnIff(k: byte, summed: seq<byte>, table: seq<Checksum>)
    requires k < |table| && Uniform(table[k]) && |table[k].sum([])| == ChecksumSize(k)
    ensures (exists f :: Accepts(f, k, Running.Running(table[k]), summed, table)) <==> table[k].code == k
  {
    hide Parse;
    if table[k].code == k {
      EmptyChunkParses();
      var f := Fragment(EncodeChunks([[]]), false, k, table[k].sum(summed + Data([[]])));
      assert Accepts(f, k, Running.Running(table[k]), summed, table);
    }
  }

  /** Of the checksums that the source knows, farmhash alone cannot begin a message; the others go by their codes. */
  lemma FarmhashRefused(crc32: seq<byte> -> seq<byte>, crc32c: seq<byte> -> seq<byte>, k: byte)
    requires k < 4 && forall x :: |crc32(x)| == 4 && |crc32c(x)| == 4
    ensures var table := StandardTable(crc32, crc32c);
      && ((exists f :: Accepts(f, k, NotStarted, [], table)) <==> k != 2)
      && (k != 2 ==> table[k].code == k)
  {
    BeginsIff(k, StandardTable(crc32, crc32c));
  }

  /** The source also fails on a first fragment whose type code is past its table, and on no other. */
  lemma UnknownChecksumIff(f: Fragment, running: Running, summed: seq<byte>, table: seq<Checksum>)
    ensures Verdict(f, running, summed, table) == UnknownChecksum <==> running == NotStarted && f.kind >= |table|
  {
    hide Parse, Data;
  }

  /** The contents are some chunks, whose data do or do not have the checksum of the fragment. */
  ghost predicate Holds(f: Fragment, cs: seq<Chunk>, c: Checksum, summed: seq<byte>, right: bool) {
    Fits(cs) && f.contents == EncodeChunks(cs) && (f.sum == c.sum(summed + Data(cs)) <==> right)
  }

  /** Why a fragment is refused: another type than before, contents that are cut short or claim more than there is,
      or data with another checksum. It is accepted exactly if it consists of chunks with the right one. */
  lemma RefusedIff(f: Fragment, running: Running, summed: seq<byte>, table: seq<Checksum>)
    requires |f.contents| < 0x1_0000
    ensures var v, chosen := Verdict(f, running, summed, table), Choose(f, running, table);
      && (v == MismatchedChecksumTypes <==> running.Running? && running.c.code != f.kind)
      && (v == BadBuffer <==> chosen.Running? && CutShort(f.contents))
      && (v == BadChunkSize <==> chosen.Running? && Overlong(f.contents))
      && (v == BadChecksum <==> chosen.Running? && exists cs :: Holds(f, cs, chosen.c, summed, false))
      && (v == NoError <==> chosen.Running? && exists cs :: cs != [] && Holds(f, cs, chosen.c, summed, true))
  {
    ParseFailsIff(f.contents);
    hide Parse, Data, EncodeChunks, Fits, CutShort, Overlong;
    var chosen := Choose(f, running, table);
    if chosen.Running? {
      if Parse(f.contents).Chunks? {
        EncodeParse(f.contents);
        var cs := Parse(f.contents).chunks;
        assert Holds(f, cs, chosen.c, summed, f.sum == chosen.c.sum(summed + Data(cs)));
      }
      forall cs, right | Holds(f, cs, chosen.c, summed, right) ensures Parse(f.contents) == Chunks(cs) {
        ParseEncode(cs);
      }
    }
  }

  /** The arguments still to come, the current one first. */
  function Rest(cur: Chunk, remaining: seq<Chunk>, fs: seq<seq<Chunk>>): (args: seq<Chunk>)
    requires fs == [] || NonEmpty(fs)
    ensures args != []
  {
    if fs == [] then [cur] + remaining else Glue([cur] + remaining, Denote(fs))
  }

  lemma RestTake(cur: Chunk, remaining: seq<Chunk>, fs: seq<seq<Chunk>>, n: nat)
    requires (fs == [] || NonEmpty(fs)) && n <= |cur|
    ensures var r := Rest(cur, remaining, fs);
      && r != [] && n <= |r[0]| && r[0][..n] == cur[..n]
      && Rest(cur[n..], remaining, fs) == [r[0][n..]] + r[1..]
  {
    if fs != [] && remaining == [] {
      var d := Denote(fs);
      assert (cur + d[0])[n..] == cur[n..] + d[0];
    }
  }

  /** Running out of chunks, the reader goes on with the next fragment. */
  lemma RestNext(f: seq<Chunk>, fs: seq<seq<Chunk>>)
    requires f != [] && (fs == [] || NonEmpty(fs))
    ensures NonEmpty([f] + fs) && Rest([], [], [f] + fs) == Rest(f[0], f[1..], fs)
  {
    hide Denote, Glue;
    assert f == [f[0]] + f[1..];
    if fs == [] {
      assert [f] + fs == [f];
      DenoteOne(f);
    } else {
      DenoteFront(f, fs);
    }
    var none: seq<Chunk> := [[]];
    assert none + [] == none;
    GlueNothing(Denote([f] + fs));
  }

  lemma RestAdvance(remaining: seq<Chunk>, fs: seq<seq<Chunk>>)
    requires remaining != [] && (fs == [] || NonEmpty(fs))
    ensures Rest([], remaining, fs) == [[]] + Rest(remaining[0], remaining[1..], fs)
  {
    assert remaining == [remaining[0]] + remaining[1..];
  }

  // Where a reader stops

  /** A place in a series: what is left of the current chunk, of its fragment, and the fragments after it. */
  datatype Spot = Spot(cur: Chunk, remaining: seq<Chunk>, ahead: seq<seq<Chunk>>)

  ghost predicate Sound(s: Spot) {
    s.ahead == [] || NonEmpty(s.ahead)
  }

  /** The first place in the next fragment. */
  ghost function Onward(s: Spot): Spot
    requires Sound(s) && s.ahead != []
  {
    Spot(s.ahead[0][0], s.ahead[0][1..], s.ahead[1..])
  }

  /** Where reading `n` bytes of an argument ends: as soon as there are that many, or at its end. */
  ghost function After(s: Spot, n: nat): Spot
    requires Sound(s)
    decreases |s.ahead|
  {
    if n <= |s.cur| then s.(cur := s.cur[n..])
    else if s.remaining != [] || s.ahead == [] then s.(cur := [])
    else After(Onward(s), n - |s.cur|)
  }

  ghost predicate Ended(s: Spot) {
    s.cur == [] && (s.remaining != [] || s.ahead == [])
  }

  ghost function Argument(s: Spot): Chunk
    requires Sound(s)
  {
    Rest(s.cur, s.remaining, s.ahead)[0]
  }

  /** The last byte of the argument is the last byte of a fragment that is not the last. */
  ghost predicate EndsFragment(s: Spot)
    requires Sound(s)
    decreases |s.ahead|
  {
    s.remaining == [] && s.ahead != [] && (Denote(s.ahead)[0] == [] || EndsFragment(Onward(s)))
  }

  lemma OnwardSame(s: Spot)
    requires Sound(s) && s.remaining == [] && s.ahead != []
    ensures Sound(Onward(s)) && Argument(s) == s.cur + Argument(Onward(s)) && Argument(Onward(s)) == Denote(s.ahead)[0]
  {
    FirstFragment(s.ahead, s.ahead[0][0], s.ahead[0][1..]);
  }

  /** Reading exactly an argument's bytes comes to its end, unless they end with a fragment that is followed by more. */
  lemma {:induction false} ExactReadIff(s: Spot)
    requires Sound(s)
    ensures Ended(After(s, |Argument(s)|)) <==> !EndsFragment(s)
    decreases |s.ahead|
  {
    if s.remaining == [] && s.ahead != [] {
      OnwardSame(s);
      if Denote(s.ahead)[0] != [] {
        ExactReadIff(Onward(s));
      }
    }
  }

  lemma AfterPart(s: Spot, k: nat, n: nat)
    requires Sound(s) && k <= |s.cur| && k <= n
    ensures After(s.(cur := s.cur[k..]), n - k) == After(s, n)
  {
    if n <= |s.cur| {
      assert s.cur[k..][n - k..] == s.cur[n..];
    }
  }

  /** Split a fragment into its chunks, one after the other. */
  method ParseChunks(contents: seq<byte>) returns (p: Parsed)
    ensures p == Parse(contents)
  {
    hide Truncate16, DecodeUint16, Parse, Prefixed;
    var chunks: seq<Chunk> := [];
    var pos := 0;
    assert contents[0..] == contents;
    PrefixedEnds(chunks, Parse(contents));
    while pos < |contents|
      invariant 0 <= pos <= |contents|
      invariant Parse(contents) == Prefixed(chunks, Parse(contents[pos..]))
    {
      ghost var b := contents[pos..];
      ParseFails(b);
      PrefixedEnds(chunks, Parse(b));
      if |contents| - pos < 2 {
        return BufferTooSmall;
      }
      var chunkSize := DecodeUint16(contents[pos], contents[pos + 1]);
      if chunkSize > Truncate16(|contents| - pos - 2) {
        return ChunkExceedsFragment;
      }
      TruncateAtMost(|contents| - pos - 2);
      var chunkData := contents[pos + 2..pos + 2 + chunkSize];
      ParseOne(b);
      assert b[2..2 + chunkSize] == chunkData && b[2 + chunkSize..] == contents[pos + 2 + chunkSize..];
      PrefixedTwice(chunks, chunkData, Parse(b[2 + chunkSize..]));
      chunks := chunks + [chunkData];
      pos := pos + 2 + chunkSize;
    }
    ParseFails(contents[pos..]);
    PrefixedEnds(chunks, Parse(contents[pos..]));
    return Chunks(chunks);
  }

  lemma ParseFails(b: seq<byte>)
    ensures |b| == 0 ==> Parse(b) == Chunks([])
    ensures |b| == 1 ==> Parse(b) == BufferTooSmall
    ensures |b| >= 2 && DecodeUint16(b[0], b[1]) > Truncate16(|b| - 2) ==> Parse(b) == ChunkExceedsFragment
  {
  }

  lemma PrefixedEnds(cs: seq<Chunk>, p: Parsed)
    ensures Prefixed([], p) == p && (!p.Chunks? ==> Prefixed(cs, p) == p)
    ensures p == Chunks([]) ==> Prefixed(cs, p) == Chunks(cs)
  {
    if p.Chunks? {
      assert [] + p.chunks == p.chunks;
    }
  }

  function Prefixed(cs: seq<Chunk>, p: Parsed): Parsed {
    if p.Chunks? then Chunks(cs + p.chunks) else p
  }

  lemma PrefixedTwice(cs: seq<Chunk>, c: Chunk, p: Parsed)
    ensures Prefixed(cs, Prefixed([c], p)) == Prefixed(cs + [c], p)
  {
    if p.Chunks? {
      assert cs + ([c] + p.chunks) == (cs + [c]) + p.chunks;
    }
  }

  lemma ParseOne(b: seq<byte>)
    requires |b| >= 2 && DecodeUint16(b[0], b[1]) <= Truncate16(|b| - 2)
    ensures DecodeUint16(b[0], b[1]) + 2 <= |b|
    ensures var size := DecodeUint16(b[0], b[1]);
      Parse(b) == Prefixed([b[2..2 + size]], Parse(b[2 + size..]))
  {
    TruncateAtMost(|b| - 2);
  }

  /** Fragments as a writer sends them are accepted. */
  lemma ProperVerdict(fs: seq<Fragment>, cs: seq<seq<Chunk>>, digest: Checksum, k: nat)
    requires Carries(fs, cs, digest) && k < |fs|
    ensures Parse(fs[k].contents) == Chunks(cs[k]) && cs[k] != []
    ensures fs[k].more == (k < |fs| - 1) && fs[k].kind == digest.code
    ensures forall running, table :: Choose(fs[k], running, table) == Running.Running(digest) ==>
      Verdict(fs[k], running, AllData(cs[..k]), table) == NoError
    ensures AllData(cs[..k + 1]) == AllData(cs[..k]) + Data(cs[k])
    ensures cs[k + 1..] == [] || NonEmpty(cs[k + 1..])
  {
    CarriesNonEmpty(fs, cs, digest);
    assert CarriesAt(fs[k], cs, digest, k, k < |fs| - 1);
    ParseEncode(cs[k]);
    assert cs[..k + 1][..k] == cs[..k];
  }

  lemma CarriesLength(fs: seq<Fragment>, cs: seq<seq<Chunk>>, digest: Checksum)
    requires Carries(fs, cs, digest)
    ensures |fs| == |cs| > 0
  {
  }

  // What was accepted, whatever came in

  /** Fragment `k` was accepted as the chunks `cs[k]`. */
  ghost predicate TookAt(f: Fragment, cs: seq<seq<Chunk>>, c: Checksum, k: nat)
    requires k < |cs|
  {
    && Parse(f.contents) == Chunks(cs[k]) && cs[k] != []
    && f.sum == c.sum(AllData(cs[..k + 1])) && (k > 0 ==> f.kind == c.code)
  }

  /** These fragments were accepted one after the other, each but the last because more were announced. */
  ghost predicate Took(fs: seq<Fragment>, cs: seq<seq<Chunk>>, c: Checksum) {
    && |fs| == |cs| && fs != []
    && (forall k :: 0 <= k < |fs| ==> TookAt(fs[k], cs, c, k))
    && (forall k :: 0 <= k < |fs| - 1 ==> fs[k].more)
  }

  lemma VerdictChooses(f: Fragment, running: Running, summed: seq<byte>, table: seq<Checksum>)
    requires Verdict(f, running, summed, table) == NoError
    ensures Choose(f, running, table).Running? && (running.Running? ==> Choose(f, running, table) == running)
    ensures running == NotStarted ==> f.kind < |table| && Choose(f, running, table) == Running.Running(table[f.kind])
  {
    hide Parse, Data;
  }

  lemma TookNonEmpty(fs: seq<Fragment>, cs: seq<seq<Chunk>>, c: Checksum)
    requires Took(fs, cs, c)
    ensures NonEmpty(cs)
  {
    forall k | 0 <= k < |cs| ensures cs[k] != [] {
      assert TookAt(fs[k], cs, c, k);
    }
  }

  lemma TookFirst(f: Fragment, table: seq<Checksum>, chunks: seq<Chunk>)
    requires Verdict(f, NotStarted, [], table) == NoError && Parse(f.contents) == Chunks(chunks)
    ensures f.kind < |table| && Took([f], [chunks], table[f.kind]) && AllData([chunks]) == Data(chunks)
  {
    hide Parse;
    var cs := [chunks];
    assert cs[..1] == cs && cs[..0] == [];
    assert AllData(cs) == AllData([]) + Data(chunks) == [] + Data(chunks);
    assert TookAt([f][0], cs, table[f.kind], 0);
  }

  lemma TookNext(fs: seq<Fragment>, cs: seq<seq<Chunk>>, c: Checksum, f: Fragment, table: seq<Checksum>,
                 chunks: seq<Chunk>)
    requires Took(fs, cs, c) && fs[|fs| - 1].more
    requires Verdict(f, Running.Running(c), AllData(cs), table) == NoError && Parse(f.contents) == Chunks(chunks)
    ensures Took(fs + [f], cs + [chunks], c) && AllData(cs + [chunks]) == AllData(cs) + Data(chunks)
  {
    hide Parse;
    var fs', cs' := fs + [f], cs + [chunks];
    assert cs'[..|cs|] == cs && cs'[..|cs| + 1] == cs';
    assert AllData(cs') == AllData(cs) + Data(chunks);
    forall k | 0 <= k < |fs'| ensures TookAt(fs'[k], cs', c, k) {
      if k < |fs| {
        assert TookAt(fs[k], cs, c, k);
        assert cs'[..k + 1] == cs[..k + 1];
      }
    }
  }

  /** What was accepted to the end was sent properly. */
  lemma TookCarries(fs: seq<Fragment>, cs: seq<seq<Chunk>>, c: Checksum)
    requires Took(fs, cs, c) && !fs[|fs| - 1].more && fs[0].kind == c.code
    requires forall k :: 0 <= k < |fs| ==> |fs[k].contents| < 0x1_0000
    ensures Carries(fs, cs, c)
  {
    forall k | 0 <= k < |fs| ensures CarriesAt(fs[k], cs, c, k, k < |fs| - 1) {
      assert TookAt(fs[k], cs, c, k);
      EncodeParse(fs[k].contents);
    }
  }

  // How arguments given out and chunks still held make up what was accepted

  lemma GlueNothing(x: seq<Chunk>)
    requires x != []
    ensures Glue([[]], x) == x
  {
    assert [] + x[0] == x[0];
    assert x == [x[0]] + x[1..];
  }

  lemma GlueNew(out: seq<Chunk>, x: seq<Chunk>)
    requires x != []
    ensures Glue(out + [[]], x) == out + x
  {
    assert [] + x[0] == x[0];
    assert x == [x[0]] + x[1..];
  }

  lemma GlueTake(out: seq<Chunk>, cur: Chunk, remaining: seq<Chunk>, k: nat)
    requires out != [] && k <= |cur|
    ensures ExtendLast(out, cur[..k]) != []
    ensures Glue(ExtendLast(out, cur[..k]), [cur[k..]] + remaining) == Glue(out, [cur] + remaining)
  {
    var l := out[|out| - 1];
    assert (l + cur[..k]) + cur[k..] == l + cur;
  }

  lemma GlueEmpty(out: seq<Chunk>, remaining: seq<Chunk>)
    requires out != []
    ensures Glue(out, [[]] + remaining) == out + remaining
  {
    assert out[|out| - 1] + [] == out[|out| - 1];
    assert out == out[..|out| - 1] + [out[|out| - 1]];
  }

  lemma DenoteOne(chunks: seq<Chunk>)
    requires chunks != []
    ensures NonEmpty([chunks]) && Denote([chunks]) == chunks && [] + [chunks] == [chunks]
  {
  }

  lemma DenoteLonger(cs: seq<seq<Chunk>>, chunks: seq<Chunk>)
    requires NonEmpty(cs) && chunks != []
    ensures NonEmpty(cs + [chunks]) && Denote(cs + [chunks]) == Glue(Denote(cs), chunks)
  {
    assert (cs + [chunks])[..|cs|] == cs;
  }

  class FragmentingReader {
    const incoming: seq<Fragment>
    const ending: Ending
    const table: seq<Checksum>            // the checksums by type code
    ghost const digest: Checksum          // the checksum and the chunks that were sent, if they were sent properly
    ghost const series: seq<seq<Chunk>>
    var received: nat
    var state: ReaderState
    var err: ReadError
    var curChunk: Chunk
    var remaining: seq<Chunk>
    var hasMore: bool
    var running: Running
    var summed: seq<byte>
    ghost var accepted: seq<seq<Chunk>>   // the chunks of the fragments accepted so far
    ghost var out: seq<Chunk>             // the arguments given out so far, the current one last
    ghost var straight: bool              // every argument was read to its end before it was closed

    /** The first fragments carry the chunks, with a checksum that is found under its own type code. */
    ghost predicate Proper() {
      && |series| <= |incoming| && Carries(incoming[..|series|], series, digest)
      && digest.code < |table| && table[digest.code] == digest
    }

    lemma ProperNonEmpty()
      requires Proper()
      ensures NonEmpty(series) && series != []
    {
      CarriesNonEmpty(incoming[..|series|], series, digest);
    }

    /** What was accepted so far. */
    ghost predicate Chain()
      reads this
    {
      if received == 0 then accepted == [] && running == NotStarted && summed == []
      else
        && received <= |incoming| && running.Running?
        && incoming[0].kind < |table| && running.c == table[incoming[0].kind]
        && Took(incoming[..received], accepted, running.c) && NonEmpty(accepted)
        && summed == AllData(accepted) && hasMore == incoming[received - 1].more
    }

    /** What was given out, and what is left, make up what was accepted. */
    ghost predicate Handed()
      requires NonEmpty(accepted)
      reads this
    {
      match state
      case Start => false
      case Waiting => out + ([curChunk] + remaining) == Denote(accepted)
      case Complete => out == Denote(accepted) && !hasMore
      case _ => out != [] && Glue(out, [curChunk] + remaining) == Denote(accepted)
    }

    ghost predicate History()
      reads this
    {
      && Chain() && (state == Start <==> received == 0)
      && (state == Start ==> out == [] && straight)
      && (Reading() ==> out != [])
      && (straight && state != Start ==> Handed())
    }

    /** Where a reader of a proper series stands. */
    ghost predicate Placed()
      reads this
    {
      && received <= |series| && summed == AllData(series[..received])
      && running == (if received == 0 then NotStarted else Running.Running(digest))
      && (if state == Start then received == 0 else hasMore == (received < |series|))
      && (series[received..] == [] || NonEmpty(series[received..]))
    }

    ghost predicate Valid()
      reads this
    {
      && received <= |incoming| && (forall f :: f in incoming ==> OnWire(f))
      && (err == NoError ==> History())
      && (Proper() && err == NoError ==> Placed())
    }

    /** The arguments still to be read, the current one first. */
    ghost function Pending(): (args: seq<Chunk>)
      requires Placed()
      reads this
      ensures args != []
    {
      Rest(curChunk, remaining, series[received..])
    }

    ghost function Here(): (s: Spot)
      requires Placed()
      reads this
      ensures Sound(s)
    {
      Spot(curChunk, remaining, series[received..])
    }

    predicate Reading()
      reads this
    {
      state == InArgument || state == InLastArgument
    }

    /** The current argument has been read to its end. */
    predicate AtEnd()
      reads this
    {
      curChunk == [] && (remaining != [] || !hasMore)
    }

    constructor (incoming: seq<Fragment>, ending: Ending, table: seq<Checksum>,
                 ghost digest: Checksum, ghost series: seq<seq<Chunk>>)
      requires forall f :: f in incoming ==> OnWire(f)
      ensures Valid() && err == NoError && state == Start && received == 0 && straight
      ensures this.incoming == incoming && this.ending == ending && this.table == table
      ensures this.digest == digest && this.series == series
    {
      this.incoming, this.ending, this.table, this.digest, this.series := incoming, ending, table, digest, series;
      received, state, err, curChunk, remaining := 0, Start, NoError, [], [];
      hasMore, running, summed := true, NotStarted, [];
      accepted, out, straight := [], [], true;
      new;
      if Proper() {
        ProperNonEmpty();
        assert series[..0] == [] && series[0..] == series;
      }
    }

    /** Receive the next fragment, check it, and make its first chunk the current one. */
    method ReceiveFragment() returns (e: ReadError)
      requires received <= |incoming|
      modifies this
      ensures state == old(state) && err == old(err) && received <= |incoming|
      ensures accepted == old(accepted) && out == old(out) && straight == old(straight)
      ensures old(received) == |incoming| ==> e == ReceiveFailed(ending)
      ensures old(received) < |incoming| ==> e == Verdict(incoming[old(received)], old(running), old(summed), table)
      ensures e == NoError ==>
        && old(received) < |incoming| && received == old(received) + 1 && hasMore == incoming[old(received)].more
        && Parse(incoming[old(received)].contents) == Chunks([curChunk] + remaining)
        && summed == old(summed) + Data([curChunk] + remaining)
        && running == Choose(incoming[old(received)], old(running), table)
    {
      hide Parse, Data;
      if received == |incoming| {
        return ReceiveFailed(ending);
      }
      var f := incoming[received];
      received := received + 1;
      match running {
        case NotStarted =>
          if f.kind >= |table| {
            return UnknownChecksum;
          }
          running := Running.Running(table[f.kind]);
        case Running(c) =>
          if c.code != f.kind {
            return MismatchedChecksumTypes;
          }
      }
      hasMore := f.more;
      remaining := [];
      var p := ParseChunks(f.contents);
      match p {
        case BufferTooSmall => return BadBuffer;
        case ChunkExceedsFragment => return BadChunkSize;
        case Chunks(chunks) =>
          summed := summed + Data(chunks);
          if f.sum != running.c.sum(summed) {
            return BadChecksum;
          }
          if chunks == [] {
            return NoChunks;
          }
          curChunk, remaining := chunks[0], chunks[1..];
          assert chunks == [curChunk] + remaining;
          return NoError;
      }
    }

    /** Go on with the next fragment, remembering an error. */
    method NextFragment()
      requires Valid() && err == NoError && (state != Start ==> hasMore)
      modifies this
      ensures received <= |incoming| && state == old(state) && (err == NoError ==> received == old(received) + 1)
      ensures out == old(out) && straight == old(straight)
      ensures err == NoError ==> Chain() && accepted == old(accepted) + [[curChunk] + remaining]
      ensures Proper() && old(received) < |series| ==>
        && err == NoError && received == old(received) + 1 && [curChunk] + remaining == series[old(received)]
        && summed == AllData(series[..received]) && hasMore == (received < |series|)
        && running == Running.Running(digest) && (series[received..] == [] || NonEmpty(series[received..]))
      ensures old(received) == |incoming| ==> err == ReceiveFailed(ending)
    {
      hide Verdict, Parse, AllData, Data, Carries, NonEmpty, Took, Handed, OnWire;
      if Proper() {
        CarriesLength(incoming[..|series|], series, digest);
        if received < |series| {
          ProperVerdict(incoming[..|series|], series, digest, received);
        }
      }
      err := ReceiveFragment();
      if err == NoError {
        ghost var f, chunks := incoming[received - 1], [curChunk] + remaining;
        VerdictChooses(f, old(running), old(summed), table);
        assert incoming[..received] == incoming[..received - 1] + [f];
        if received == 1 {
          assert incoming[..received] == [f] && accepted + [chunks] == [chunks];
          TookFirst(f, table, chunks);
        } else {
          TookNext(incoming[..received - 1], accepted, running.c, f, table, chunks);
        }
        accepted := accepted + [chunks];
        TookNonEmpty(incoming[..received], accepted, running.c);
      }
    }

    method BeginArgument(last: bool) returns (e: ReadError)
      requires Valid()
      modifies this
      ensures Valid() && e == err
      ensures old(err) != NoError ==> e == old(err)
      ensures old(err) == NoError && old(Reading()) ==> e == AlreadyReading
      ensures old(err) == NoError && old(state) == Complete ==> e == AlreadyComplete
      ensures e == NoError ==> state == if last then InLastArgument else InArgument
      ensures straight == old(straight) && (e == NoError ==> out == old(out) + [[]])
      ensures Proper() && old(err) == NoError && old(state) == Start ==>
        && e == NoError && NonEmpty(series) && Pending() == Denote(series)
        && Here() == Spot(series[0][0], series[0][1..], series[1..])
      ensures Proper() && old(err) == NoError && old(state) == Waiting ==>
        e == NoError && Pending() == old(Pending()) && Here() == old(Here())
    {
      hide Took, AllData, Carries, Glue, Denote, Rest, NonEmpty, OnWire;
      if err != NoError {
        return err;
      }
      if Reading() {
        err := AlreadyReading;
        return err;
      }
      if state == Complete {
        err := AlreadyComplete;
        return err;
      }
      if state == Start {
        if Proper() {
          ProperNonEmpty();
        }
        NextFragment();
        if err != NoError {
          return err;
        }
        if Proper() {
          FirstFragment(series, curChunk, remaining);
        }
        GlueNothing([curChunk] + remaining);
        DenoteOne([curChunk] + remaining);
        assert out + [[]] == [[]];
      } else {
        GlueNew(out, [curChunk] + remaining);
      }
      out := out + [[]];
      state := if last then InLastArgument else InArgument;
      return NoError;
    }

    /** Give out up to `n` bytes of the current chunk. */
    method TakeChunk(n: nat) returns (data: Chunk)
      requires Valid() && err == NoError && Reading()
      modifies this
      ensures Valid() && err == NoError && state == old(state) && received == old(received)
      ensures remaining == old(remaining) && hasMore == old(hasMore)
      ensures |data| <= n && (|data| < n ==> curChunk == []) && |curChunk| + |data| == |old(curChunk)|
      ensures straight == old(straight) && old(out) != [] && out == ExtendLast(old(out), data)
      ensures Proper() ==> Taken(old(Pending()), data, Pending())
      ensures Proper() ==> After(Here(), n - |data|) == After(old(Here()), n)
    {
      hide Rest, Carries, NonEmpty, AllData, After, Took, ExtendLast, Glue;
      if Proper() {
        AfterPart(Here(), if n < |curChunk| then n else |curChunk|, n);
      }
      var k := if n < |curChunk| then n else |curChunk|;
      if Proper() {
        RestTake(curChunk, remaining, series[received..], k);
      }
      GlueTake(out, curChunk, remaining, k);
      data := curChunk[..k];
      curChunk := curChunk[k..];
      out := ExtendLast(out, data);
    }

    lemma ContinueRest()
      requires Proper() && Placed() && curChunk == [] && remaining == [] && received < |series|
      ensures series[received] != [] && series[received..] == [series[received]] + series[received + 1..]
      ensures series[received + 1..] == [] || NonEmpty(series[received + 1..])
      ensures Pending() == Rest(series[received][0], series[received][1..], series[received + 1..])
    {
      ProperNonEmpty();
      RestNext(series[received], series[received + 1..]);
    }

    /** Nothing is left in this fragment: continue the argument in the next one. */
    method ContinueArgument()
      requires Valid() && err == NoError && Reading() && curChunk == [] && remaining == [] && hasMore
      modifies this
      ensures Valid() && state == old(state)
      ensures err == NoError ==> received == old(received) + 1
      ensures out == old(out) && straight == old(straight)
      ensures Proper() ==> err == NoError && Pending() == old(Pending()) && Here() == Onward(old(Here()))
    {
      hide Rest, Carries, NonEmpty, AllData, Took, Glue, Denote, OnWire;
      if Proper() {
        ContinueRest();
      }
      GlueEmpty(out, []);
      assert [curChunk] + remaining == [[]] + [] && out + [] == out;
      NextFragment();
      if err == NoError {
        DenoteLonger(old(accepted), [curChunk] + remaining);
      }
      assert Proper() ==> curChunk == series[old(received)][0] && remaining == series[old(received)][1..];
    }

    /** Read up to `n` bytes of the current argument. */
    method Read(n: nat) returns (data: Chunk, eof: bool, e: ReadError)
      requires Valid()
      modifies this
      ensures Valid() && e == err
      ensures old(err) != NoError ==> e == old(err) && data == []
      ensures old(err) == NoError && !old(Reading()) ==> e == NotReading && data == []
      ensures e == NoError ==> state == old(state) && |data| <= n && (eof ==> AtEnd()) && (!eof ==> |data| == n)
      ensures straight == old(straight)
      ensures e == NoError ==> old(out) != [] && out == ExtendLast(old(out), data)
      ensures e == NoError ==> received >= old(received)
      ensures e == NoError && received == old(received) ==> |curChunk| + |data| == |old(curChunk)|
      ensures Proper() && old(err) == NoError && old(Reading()) ==>
        && e == NoError && Taken(old(Pending()), data, Pending())
        && eof == (n > |old(Pending())[0]|) && |data| == (if eof then |old(Pending())[0]| else n)
        && Here() == After(old(Here()), n)
    {
      hide Placed, Pending, Here, Taken, After, Proper, History, ExtendLast;
      if err != NoError {
        return [], false, err;
      }
      if !Reading() {
        err := NotReading;
        return [], false, err;
      }
      data := [];
      ghost var all := if Proper() then Pending() else [];
      if Proper() {
        TakenNothing(all);
      }
      OutNonEmpty();
      ExtendNothing(out);
      while true
        invariant Valid() && err == NoError && state == old(state) && |data| <= n
        invariant straight == old(straight) && out == ExtendLast(old(out), data)
        invariant received >= old(received)
        invariant received == old(received) ==> |curChunk| + |data| == |old(curChunk)|
        invariant Proper() ==>
          Placed() && Taken(all, data, Pending()) && After(Here(), n - |data|) == After(old(Here()), n)
        decreases |incoming| - received
      {
        ghost var before := if Proper() then Pending() else [];
        var part := TakeChunk(n - |data|);
        if Proper() {
          TakenTwice(all, data, before, part, Pending());
          TakenLength(all, data + part, Pending());
        }
        ExtendTwice(old(out), data, part);
        data := data + part;
        if |data| == n {
          if Proper() {
            AfterNone(Here());
          }
          return data, false, NoError;
        }
        if Proper() {
          HereIs();
          AfterMore(Here(), n - |data|);
        }
        if remaining != [] || !hasMore {
          if Proper() {
            EndReached();
            TakenLength(all, data, Pending());
          }
          return data, true, NoError;
        }
        ContinueArgument();
        if err != NoError {
          return data, false, err;
        }
      }
    }

    lemma OutNonEmpty()
      requires Valid() && err == NoError && Reading()
      ensures out != []
    {
    }

    lemma NothingLeft()
      requires Placed() && Pending()[0] == []
      ensures curChunk == []
    {
    }

    lemma HereIs()
      requires Placed() && Reading()
      ensures Here().cur == curChunk && Here().remaining == remaining && hasMore == (Here().ahead != [])
    {
    }

    lemma EndReached()
      requires Placed() && AtEnd() && Reading()
      ensures Pending() != [] && Pending()[0] == [] && (|Pending()| == 1 <==> remaining == [])
    {
      if received < |series| {
        var fs := series[received..];
        RestAdvance(remaining, fs);
      }
    }

    /** The next argument is up, in the same fragment. */
    method NextArgument()
      requires Valid() && err == NoError && state == InArgument && curChunk == [] && remaining != []
      modifies this
      ensures Valid() && err == NoError && state == Waiting && out == old(out) && straight == old(straight)
      ensures Proper() ==> Pending() == old(Pending())[1..]
    {
      hide Rest, Carries, NonEmpty, AllData, Took, Glue, Denote, OnWire, Proper;
      GlueEmpty(out, remaining);
      assert [curChunk] + remaining == [[]] + remaining;
      assert remaining == [remaining[0]] + remaining[1..];
      if Proper() {
        RestAdvance(remaining, series[received..]);
      }
      state := Waiting;
      curChunk, remaining := remaining[0], remaining[1..];
    }

    /**
      Close the current argument. An argument that was read to its end gives way to the next
      one. One that was not, though nothing is left of its chunk, stays the pending one: the
      caller will find the rest of it where the next argument should be.
     */
    method Close() returns (e: ReadError)
      requires Valid()
      modifies this
      ensures Valid() && e == err
      ensures old(err) != NoError ==> e == old(err)
      ensures old(err) == NoError && !old(Reading()) ==> e == NotReading
      ensures old(err) == NoError && old(Reading()) && old(curChunk) != [] ==> e == MoreDataInArgument
      ensures e == NoError ==> state == if old(state) == InLastArgument then Complete else Waiting
      ensures e == NoError ==> out == old(out) && straight == (old(straight) && old(AtEnd()))
      ensures old(err) == NoError && old(state) == InLastArgument && old(curChunk) == [] ==>
        e == if old(remaining) != [] || old(hasMore) then ExpectedMoreArguments else NoError
      ensures old(err) == NoError && old(state) == InArgument && old(curChunk == [] && remaining == [] && !hasMore) ==>
        e == NoMoreFragments && state == Waiting
      ensures Proper() && old(err) == NoError && old(state) == InLastArgument ==>
        (e == NoError <==> old(AtEnd()) && |old(Pending())| == 1)
      ensures Proper() && old(err) == NoError && old(state) == InArgument ==>
        && (e == NoError <==> old(curChunk) == [] && (old(AtEnd()) ==> |old(Pending())| > 1))
        && (e == NoError ==> Pending() == if old(AtEnd()) then old(Pending())[1..] else old(Pending()))
    {
      hide Rest, Carries, NonEmpty, AllData, Took, Glue, Denote, OnWire, Proper;
      var last := state == InLastArgument;
      if err != NoError {
        return err;
      }
      if !Reading() {
        err := NotReading;
        return err;
      }
      if curChunk != [] {
        err := MoreDataInArgument;
        return err;
      }
      if Proper() && AtEnd() {
        EndReached();
      }
      GlueEmpty(out, remaining);
      assert [curChunk] + remaining == [[]] + remaining;
      if last {
        if remaining != [] || hasMore {
          err := ExpectedMoreArguments;
          return err;
        }
        assert out + remaining == out;
        curChunk := [];
        state := Complete;
        return NoError;
      }
      if remaining != [] {
        NextArgument();
        return NoError;
      }
      if !hasMore {
        state := Waiting;
        err := NoMoreFragments;
        return err;
      }
      ContinueArgument();
      straight := false;
      state := Waiting;
      return err;
    }
  }

  lemma AfterNone(s: Spot)
    requires Sound(s)
    ensures After(s, 0) == s
  {
    assert s.cur[0..] == s.cur;
  }

  lemma AfterMore(s: Spot, n: nat)
    requires Sound(s) && s.cur == [] && n > 0
    ensures After(s, n) == if s.remaining != [] || s.ahead == [] then s else After(Onward(s), n)
  {
  }

  lemma TakenNothing(all: seq<Chunk>)
    requires all != []
    ensures Taken(all, [], all)
  {
  }

  lemma TakenLength(before: seq<Chunk>, data: Chunk, after: seq<Chunk>)
    requires Taken(before, data, after)
    ensures before != [] && after != [] && |data| + |after[0]| == |before[0]|
  {
  }

  /** Reading `data` takes it off the first argument. */
  ghost predicate Taken(before: seq<Chunk>, data: Chunk, after: seq<Chunk>) {
    before != [] && after != [] && before[0] == data + after[0] && before[1..] == after[1..]
  }

  lemma TakenTwice(a: seq<Chunk>, x: Chunk, b: seq<Chunk>, y: Chunk, c: seq<Chunk>)
    requires Taken(a, x, b) && Taken(b, y, c)
    ensures Taken(a, x + y, c)
  {
    assert x + (y + c[0]) == (x + y) + c[0];
  }

  lemma FirstFragment(series: seq<seq<Chunk>>, cur: Chunk, remaining: seq<Chunk>)
    requires NonEmpty(series) && [cur] + remaining == series[0]
    ensures (series[1..] == [] || NonEmpty(series[1..])) && Rest(cur, remaining, series[1..]) == Denote(series)
  {
    if |series| == 1 {
    } else {
      assert series == [series[0]] + series[1..];
      DenoteFront(series[0], series[1..]);
    }
  }
}
