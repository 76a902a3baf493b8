/**
  The fragmenting writer: arguments are written piece by piece into fragments of
  limited size, each piece behind a size that is filled in afterwards.
 */
module FragmentingWriters {
  import opened Fragments

  datatype WriteError =
    | NoError
    | AlreadyWriting
    | NotWriting
    | AlreadyComplete
    | SendFailed
    | NoRoom            // the source panics here
    | NilChunk          // and dereferences nil here

  datatype WriterState = Start | InArgument | InLastArgument | Waiting | Complete

  /** The other side of the writer: how many bytes of contents the k-th fragment has, and
      which of its calls fail. */
  datatype Sender = Sender(capacity: nat -> nat, fails: nat -> bool)

  // Arguments and the chunk being written

  lemma DenoteSnoc(done: seq<seq<Chunk>>, chunks: seq<Chunk>)
    requires chunks != [] && (done == [] || NonEmpty(done))
    ensures NonEmpty(done + [chunks])
    ensures Denote(done + [chunks]) == if done == [] then chunks else Glue(Denote(done), chunks)
  {
    assert (done + [chunks])[..|done|] == done;
  }

  lemma DenoteExtend(done: seq<seq<Chunk>>, chunks: seq<Chunk>, b: Chunk)
    requires chunks != [] && (done == [] || NonEmpty(done))
    ensures NonEmpty(done + [chunks]) && NonEmpty(done + [ExtendLast(chunks, b)])
    ensures Denote(done + [ExtendLast(chunks, b)]) == ExtendLast(Denote(done + [chunks]), b)
  {
    hide Denote, NonEmpty, ExtendLast, Glue;
    ExtendKeeps(chunks, b);
    DenoteSnoc(done, chunks);
    DenoteSnoc(done, ExtendLast(chunks, b));
    if done != [] {
      GlueExtend(Denote(done), chunks, b);
    }
  }

  lemma ExtendKeeps(chunks: seq<Chunk>, b: Chunk)
    requires chunks != []
    ensures ExtendLast(chunks, b) != []
  {
  }

  lemma GlueExtend(d: seq<Chunk>, chunks: seq<Chunk>, b: Chunk)
    requires d != [] && chunks != []
    ensures Glue(d, chunks) != [] && ExtendLast(chunks, b) != []
    ensures ExtendLast(Glue(d, chunks), b) == Glue(d, ExtendLast(chunks, b))
  {
    if |chunks| == 1 {
      assert (d[|d| - 1] + chunks[0]) + b == d[|d| - 1] + (chunks[0] + b);
    }
  }

  lemma DenoteNewChunk(done: seq<seq<Chunk>>, chunks: seq<Chunk>)
    requires chunks != [] && (done == [] || NonEmpty(done))
    ensures NonEmpty(done + [chunks]) && NonEmpty(done + [chunks + [[]]])
    ensures Denote(done + [chunks + [[]]]) == Denote(done + [chunks]) + [[]]
  {
    hide Denote, NonEmpty;
    DenoteSnoc(done, chunks);
    DenoteSnoc(done, chunks + [[]]);
  }

  lemma DenoteNewFragment(done: seq<seq<Chunk>>)
    requires NonEmpty(done)
    ensures NonEmpty(done + [[[]]]) && Denote(done + [[[]]]) == Denote(done)
  {
    DenoteSnoc(done, [[]]);
    var d := Denote(done);
    assert d[|d| - 1] + [] == d[|d| - 1];
    assert d == d[..|d| - 1] + [d[|d| - 1]];
  }

  lemma AllDataSnoc(done: seq<seq<Chunk>>, chunks: seq<Chunk>)
    ensures AllData(done + [chunks]) == AllData(done) + Data(chunks)
  {
    assert (done + [chunks])[..|done|] == done;
  }

  lemma DataExtend(chunks: seq<Chunk>, b: Chunk)
    requires chunks != []
    ensures Data(ExtendLast(chunks, b)) == Data(chunks) + b
  {
    var k := |chunks| - 1;
    assert ExtendLast(chunks, b)[..k] == chunks[..k];
    assert Data(chunks[..k]) + (chunks[k] + b) == (Data(chunks[..k]) + chunks[k]) + b;
  }

  lemma DataNewChunk(chunks: seq<Chunk>)
    ensures Data(chunks + [[]]) == Data(chunks)
  {
    assert (chunks + [[]])[..|chunks|] == chunks;
  }

  // Bytes of a fragment in progress

  /** The chunks as bytes, with the size of the last one not filled in yet. */
  ghost function Draft(chunks: seq<Chunk>): seq<byte>
    requires chunks != [] && Fits(chunks)
  {
    EncodeChunks(chunks[..|chunks| - 1]) + [0, 0] + chunks[|chunks| - 1]
  }

  ghost function SizePlace(chunks: seq<Chunk>): nat
    requires chunks != [] && Fits(chunks)
  {
    |EncodeChunks(chunks[..|chunks| - 1])|
  }

  lemma DraftExtend(chunks: seq<Chunk>, b: Chunk)
    requires chunks != [] && Fits(chunks) && Fits(ExtendLast(chunks, b))
    ensures Draft(ExtendLast(chunks, b)) == Draft(chunks) + b
    ensures SizePlace(ExtendLast(chunks, b)) == SizePlace(chunks)
  {
    var k := |chunks| - 1;
    assert ExtendLast(chunks, b)[..k] == chunks[..k];
    var e := EncodeChunks(chunks[..k]) + [0, 0];
    assert e + (chunks[k] + b) == (e + chunks[k]) + b;
  }

  lemma DraftNewChunk(chunks: seq<Chunk>)
    requires Fits(chunks)
    ensures Fits(chunks + [[]])
    ensures Draft(chunks + [[]]) == EncodeChunks(chunks) + [0, 0] && SizePlace(chunks + [[]]) == |EncodeChunks(chunks)|
  {
    assert (chunks + [[]])[..|chunks|] == chunks;
  }

  /** Filling in the size makes the draft final. */
  lemma DraftFinished(chunks: seq<Chunk>)
    requires chunks != [] && Fits(chunks)
    ensures var d, p, n := Draft(chunks), SizePlace(chunks), |chunks[|chunks| - 1]|;
      && p + 1 < |d|
      && d[p := EncodeUint16(n)[0]][p + 1 := EncodeUint16(n)[1]] == EncodeChunks(chunks)
  {
    var e, c := EncodeChunks(chunks[..|chunks| - 1]), chunks[|chunks| - 1];
    PatchSize(e, 0, 0, c, EncodeUint16(|c|)[0], EncodeUint16(|c|)[1]);
    assert EncodeUint16(|c|) == [EncodeUint16(|c|)[0], EncodeUint16(|c|)[1]];
    assert e + EncodeUint16(|c|) + c == e + (EncodeUint16(|c|) + c);
  }

  lemma PatchSize(e: seq<byte>, x: byte, y: byte, c: seq<byte>, high: byte, low: byte)
    ensures (e + [x, y] + c)[|e| := high][|e| + 1 := low] == e + [high, low] + c
  {
  }

  lemma DraftSize(chunks: seq<Chunk>)
    requires chunks != [] && Fits(chunks)
    ensures |Draft(chunks)| == |EncodeChunks(chunks)| && |Draft(chunks)| >= |chunks[|chunks| - 1]| + 2
  {
  }

  /** Fragments sent so far, none of them the last. */
  ghost predicate Sent(fs: seq<Fragment>, done: seq<seq<Chunk>>, digest: Checksum) {
    && |fs| == |done|
    && forall i :: 0 <= i < |fs| ==> CarriesAt(fs[i], done, digest, i, true)
  }

  lemma SentExtend(fs: seq<Fragment>, done: seq<seq<Chunk>>, digest: Checksum, chunks: seq<Chunk>, more: bool)
    requires Sent(fs, done, digest) && chunks != [] && Fits(chunks) && |EncodeChunks(chunks)| < 0x1_0000
    ensures var f := Fragment(EncodeChunks(chunks), more, digest.code, digest.sum(AllData(done) + Data(chunks)));
      && (more ==> Sent(fs + [f], done + [chunks], digest))
      && (!more ==> Carries(fs + [f], done + [chunks], digest))
  {
    hide EncodeChunks, Data, AllData, Fits;
    AllDataSnoc(done, chunks);
    var f := Fragment(EncodeChunks(chunks), more, digest.code, digest.sum(AllData(done) + Data(chunks)));
    var fs', done' := fs + [f], done + [chunks];
    assert done'[..|done| + 1] == done';
    forall i | 0 <= i < |fs'|
      ensures CarriesAt(fs'[i], done', digest, i, i < |fs| || more)
    {
      if i < |fs| {
        assert CarriesAt(fs[i], done, digest, i, true);
        assert done'[..i + 1] == done[..i + 1];
      }
    }
  }

  class FragmentingWriter {
    const sender: Sender
    const digest: Checksum
    var state: WriterState
    var err: WriteError
    var sent: seq<Fragment>
    var calls: nat                 // calls made to the sender
    var fragments: nat             // fragments allocated
    var open: bool                 // there is a current fragment
    var contents: seq<byte>
    var capacity: nat
    var sizeRef: nat               // where the size of the current chunk goes
    var size: nat
    var summed: seq<byte>          // data added to the checksum
    ghost var done: seq<seq<Chunk>>
    ghost var chunks: seq<Chunk>

    /** A fragment fits a frame, and one that continues an argument has room for some of it. */
    ghost predicate Sensible() {
      forall k :: sender.capacity(k) < 0x1_0000 && (k > 0 ==> sender.capacity(k) >= 3)
    }

    /** Every fragment has room to end an argument and begin another. */
    ghost predicate Roomy() {
      forall k :: sender.capacity(k) >= 5
    }

    ghost predicate Allocated()
      reads this
    {
      fragments > 0 && capacity == sender.capacity(fragments - 1) < 0x1_0000
    }

    ghost predicate OpenFragment()
      reads this
    {
      && open && chunks != [] && Fits(chunks) && Allocated() && |contents| <= capacity
      && summed == AllData(done) + Data(chunks)
    }

    ghost predicate InChunk()
      reads this
    {
      && OpenFragment() && contents == Draft(chunks)
      && sizeRef == SizePlace(chunks) && size == |chunks[|chunks| - 1]|
    }

    /** Every fragment was sent in its turn, and none has more than there was room for. */
    ghost predicate Held(current: nat)
      reads this
    {
      fragments == |sent| + current && forall i :: 0 <= i < |sent| ==> |sent[i].contents| <= sender.capacity(i)
    }

    /** From number `from` on the fragments had no room for another argument. */
    ghost predicate Filled(fs: seq<Fragment>, from: nat) {
      forall i :: from <= i < |fs| ==> |fs[i].contents| + ChunkHeaderSize >= sender.capacity(i)
    }

    /** One more fragment was sent, with so many bytes. */
    twostate predicate SentOne(n: nat)
      reads this
    {
      |sent| == |old(sent)| + 1 && old(sent) <= sent && |sent[|old(sent)|].contents| == n
    }

    /** The writer has not lost its fragment: it is in order, or remembers that it was misused. */
    predicate Intact()
      reads this
    {
      err != SendFailed && err != NoRoom && err != NilChunk
    }

    ghost predicate Valid()
      reads this
    {
      && Sensible()
      && (Intact() ==>
            match state
            case Start => !open && sent == [] && done == [] && summed == [] && fragments == 0
            case InArgument => Sent(sent, done, digest) && Held(1) && InChunk()
            case InLastArgument => Sent(sent, done, digest) && Held(1) && InChunk()
            case Waiting =>
              && Sent(sent, done, digest) && Held(1) && OpenFragment() && contents == EncodeChunks(chunks)
              && (capacity > |contents| + 2 || |contents| == 2)
            case Complete => Carries(sent, done, digest) && Held(0))
    }

    /** The arguments written so far, the one in progress last. */
    ghost function Args(): seq<Chunk>
      requires Valid() && Intact()
      reads this
    {
      if state == Start then []
      else if state == Complete then
        CarriesNonEmpty(sent, done, digest);
        Denote(done)
      else
        SentNonEmpty(sent, done, digest);
        DenoteSnoc(done, chunks);
        Denote(done + [chunks])
    }

    constructor (sender: Sender, digest: Checksum)
      requires forall k :: sender.capacity(k) < 0x1_0000 && (k > 0 ==> sender.capacity(k) >= 3)
      ensures Valid() && err == NoError && state == Start && Args() == []
      ensures this.sender == sender && this.digest == digest && calls == 0
    {
      this.sender, this.digest := sender, digest;
      state, err, sent, calls, fragments, open := Start, NoError, [], 0, 0, false;
      contents, capacity, sizeRef, size, summed := [], 0, 0, 0, [];
      done, chunks := [], [];
    }

    ghost predicate Reliable() {
      forall k :: !sender.fails(k)
    }

    predicate Writing()
      reads this
    {
      state == InArgument || state == InLastArgument
    }

    /** The next argument cannot begin. */
    ghost predicate Cramped()
      reads this
    {
      || (state == Start && !sender.fails(calls) && sender.capacity(fragments) <= ChunkHeaderSize)
      || (state == Waiting && capacity - |contents| <= ChunkHeaderSize)
    }

    lemma TinyIsCramped()
      requires Valid() && err == NoError && state == Waiting && capacity <= 4
      ensures Cramped()
    {
      EncodedNotEmpty(chunks);
    }

    // Calls to the sender

    method NewFragment()
      requires Sensible()
      modifies this
      ensures sender.fails(old(calls)) ==> err == SendFailed
      ensures !sender.fails(old(calls)) ==>
        && err == old(err) && open && contents == [] && Allocated()
        && fragments == old(fragments) + 1
      ensures state == old(state) && sent == old(sent) && summed == old(summed) && done == old(done)
      ensures chunks == [] && calls == old(calls) + 1
    {
      if sender.fails(calls) {
        err := SendFailed;
      } else {
        open, contents, capacity := true, [], sender.capacity(fragments);
        fragments := fragments + 1;
      }
      calls := calls + 1;
      chunks := [];
    }

    /** Set flags and checksum of the current fragment and hand it to the sender. */
    method FlushFragment(more: bool)
      modifies this
      ensures sender.fails(old(calls)) ==> err == SendFailed
      ensures !sender.fails(old(calls)) ==>
        && err == old(err) && done == old(done) + [chunks]
        && sent == old(sent) + [Fragment(contents, more, digest.code, digest.sum(summed))]
      ensures state == old(state) && summed == old(summed) && contents == old(contents) && chunks == old(chunks)
      ensures fragments == old(fragments) && calls == old(calls) + 1
    {
      if sender.fails(calls) {
        err := SendFailed;
      } else {
        sent := sent + [Fragment(contents, more, digest.code, digest.sum(summed))];
        done := done + [chunks];
      }
      calls := calls + 1;
    }

    // Chunks

    /** Start a chunk in the current fragment, leaving room for its size. */
    method NewChunk()
      requires open && Allocated() && Fits(chunks) && contents == EncodeChunks(chunks)
      requires |contents| + ChunkHeaderSize <= capacity && summed == AllData(done) + Data(chunks)
      modifies this
      ensures InChunk() && chunks == old(chunks) + [[]] && |contents| == old(|contents|) + 2
      ensures capacity == old(capacity) && fragments == old(fragments)
      ensures err == old(err) && state == old(state) && sent == old(sent) && done == old(done)
    {
      hide Draft, SizePlace, Data, AllData, Fits, EncodeChunks;
      DraftNewChunk(chunks);
      DataNewChunk(chunks);
      sizeRef, size := |contents|, 0;
      contents := contents + [0, 0];
      chunks := chunks + [[]];
    }

    /** Fill in the size of the current chunk. */
    method FinishChunk()
      requires InChunk()
      modifies this
      ensures OpenFragment() && contents == EncodeChunks(chunks) && |contents| == old(|contents|)
      ensures chunks == old(chunks)
      ensures err == old(err) && state == old(state) && sent == old(sent) && done == old(done)
      ensures capacity == old(capacity) && fragments == old(fragments)
    {
      DraftFinished(chunks);
      DraftSize(chunks);
      contents := contents[sizeRef := EncodeUint16(size)[0]][sizeRef + 1 := EncodeUint16(size)[1]];
    }

    method WriteAsFits(b: Chunk) returns (written: nat)
      requires InChunk()
      modifies this
      ensures written == (if |b| <= old(capacity - |contents|) then |b| else old(capacity - |contents|)) <= |b|
      ensures InChunk() && chunks == ExtendLast(old(chunks), b[..written])
      ensures |contents| == old(|contents|) + written && capacity == old(capacity) && fragments == old(fragments)
      ensures err == old(err) && state == old(state) && sent == old(sent) && done == old(done)
    {
      hide Draft, SizePlace, Data, AllData, Truncate16, ExtendLast, Fits;
      written := |b|;
      if |b| > capacity - |contents| {
        written := capacity - |contents|;
      }
      var fits := b[..written];
      ExtendChunk(chunks, done, fits, capacity);
      TruncateSmall(size + written);
      summed := summed + fits;
      contents := contents + fits;
      size := Truncate16(size + written);
      chunks := ExtendLast(chunks, fits);
    }

    /** Flush the current fragment as followed by more, and start the next. */
    method NextFragment()
      requires Sensible() && err == NoError && Sent(sent, done, digest) && Held(1)
      requires OpenFragment() && contents == EncodeChunks(chunks)
      modifies this
      ensures state == old(state) && (Reliable() ==> err == NoError) && (err == NoError || err == SendFailed)
      ensures err == NoError ==>
        && Sent(sent, done, digest) && Held(1) && done == old(done) + [old(chunks)] && chunks == []
        && open && contents == [] && Allocated() && capacity >= 3 && summed == AllData(done) + Data(chunks)
        && SentOne(|old(contents)|)
    {
      hide Sent, AllData, Data, EncodeChunks, Fits;
      SentExtend(sent, done, digest, chunks, true);
      AllDataSnoc(done, chunks);
      FlushFragment(true);
      if err == NoError {
        NewFragment();
        FirstFragment(digest);
        assert err == NoError ==> sender.capacity(fragments - 1) >= 3;
      }
    }

    /** Remember an error; the writer is of no more use. */
    method Fail(e: WriteError)
      requires Valid() && err == NoError && e != NoError
      modifies this
      ensures Valid() && err == e
    {
      err := e;
    }

    // The interface of the writer

    method BeginArgument(last: bool) returns (e: WriteError)
      requires Valid()
      modifies this
      ensures Valid() && e == err
      ensures old(err) != NoError ==> e == old(err)
      ensures old(err) == NoError && old(state) == Complete ==> e == AlreadyComplete
      ensures old(err) == NoError && old(Writing()) ==> e == AlreadyWriting
      ensures e == NoError ==>
        old(err) == NoError && state == (if last then InLastArgument else InArgument) && Args() == old(Args()) + [[]]
      ensures sent == old(sent)
      ensures e == NoRoom <==> old(err) == NoRoom || (old(err) == NoError && old(Cramped()))
      ensures Reliable() && old(err) == NoError && (old(state) == Start || old(state) == Waiting) ==>
        e == NoError || e == NoRoom
      ensures Roomy() && old(err) == NoError ==> e != NoRoom
    {
      hide Denote, NonEmpty, Sent, Carries, Fits, EncodeChunks, Draft, SizePlace, Data, AllData;
      if err != NoError {
        return err;
      }
      if state == Complete {
        err := AlreadyComplete;
        return err;
      }
      if Writing() {
        err := AlreadyWriting;
        return err;
      }
      if !open {
        NewFragment();
        if err != NoError {
          return err;
        }
        FirstFragment(digest);
      }
      if capacity - |contents| <= ChunkHeaderSize {
        err := NoRoom;
        return err;
      }
      ghost var was := chunks;
      NewChunk();
      BeganArgument(sent, done, digest, was);
      state := if last then InLastArgument else InArgument;
      return NoError;
    }

    /** End the current fragment early, within an argument or between two. Between two, the
        source fills in the size of the last chunk once more, and starts a chunk that stays empty.
        It does not look at an error it remembers, and forgets it. */
    method Flush() returns (e: WriteError)
      requires Valid() && Intact() && state != Complete
      modifies this
      ensures Valid() && e == err && state == old(state)
      ensures e == NilChunk <==> old(state) == Start
      ensures Reliable() && old(state) != Start ==> e == NoError
      ensures e == NoError ==> Args() == old(Args()) && |contents| < capacity && SentOne(|old(contents)|)
    {
      if state == Start {
        err := NilChunk;
        return err;
      }
      err := NoError;
      FlushCurrent();
      return err;
    }

    method FlushCurrent()
      requires Valid() && err == NoError && (Writing() || state == Waiting)
      modifies this
      ensures Valid() && state == old(state) && (err == NoError || err == SendFailed) && (Reliable() ==> err == NoError)
      ensures err == NoError ==> Args() == old(Args()) && |contents| < capacity && SentOne(|old(contents)|)
    {
      hide Denote, NonEmpty, Sent, Carries, Fits, EncodeChunks, Draft, SizePlace, Data, AllData;
      SentNonEmpty(sent, done, digest);
      DenoteSnoc(done, chunks);
      if Writing() {
        FinishChunk();
      }
      NextFragment();
      if err != NoError {
        return;
      }
      DenoteNewFragment(done);
      FirstFragment(digest);
      NewChunk();
      assert chunks == [[]];
      DraftSize(chunks);
      EncodeEmptyChunk();
      DraftEmptyChunk();
    }

    /** Write what fits into the current fragment. */
    method WriteSome(b: Chunk) returns (n: nat)
      requires Valid() && err == NoError && Writing()
      modifies this
      ensures Valid() && err == NoError && Writing() && state == old(state)
      ensures n <= |b| && Args() == ExtendLast(old(Args()), b[..n])
      ensures n < |b| ==> n > 0 || old(|contents| >= capacity)
      ensures sent == old(sent) && fragments == old(fragments) && capacity == old(capacity)
      ensures n == |b| <==> |b| <= old(capacity - |contents|)
      ensures n < |b| ==> |contents| == capacity
    {
      hide Denote, NonEmpty, ExtendLast, Sent, Carries, Draft, SizePlace, Fits, Data, AllData;
      SentNonEmpty(sent, done, digest);
      ghost var was := chunks;
      DenoteSnoc(done, was);
      n := WriteAsFits(b);
      DenoteExtend(done, was, b[..n]);
    }

    /** Write argument data over as many fragments as it takes. */
    method Write(b: Chunk) returns (written: nat, e: WriteError)
      requires Valid()
      modifies this
      ensures Valid() && e == err
      ensures old(err) != NoError ==> e == old(err) && written == 0
      ensures old(err) == NoError && !old(Writing()) ==> e == NotWriting && written == 0
      ensures e == NoError ==>
        && old(err) == NoError && old(Writing()) && written == |b| && state == old(state)
        && Args() == ExtendLast(old(Args()), b)
      ensures e == NoError ==> old(sent) <= sent && Filled(sent, |old(sent)|)
      ensures e == NoError && |b| <= old(capacity - |contents|) ==> sent == old(sent)
      ensures Reliable() && old(err) == NoError && old(Writing()) ==> e == NoError
    {
      hide Valid, ExtendLast, Args, Filled;
      NothingFilled();
      if err != NoError {
        return 0, err;
      }
      if !Writing() {
        Fail(NotWriting);
        return 0, err;
      }
      var rest := b;
      written := 0;
      ghost var args := Args();
      ArgsNonEmpty();
      ExtendNothing(args);
      while true
        invariant Valid() && err == NoError && Writing() && state == old(state)
        invariant 0 <= written <= |b| && rest == b[written..]
        invariant Args() == ExtendLast(args, b[..written])
        invariant old(sent) <= sent && Filled(sent, |old(sent)|)
        invariant || |b| > old(capacity - |contents|)
                  || (written == 0 && sent == old(sent) && capacity == old(capacity) && contents == old(contents))
        decreases |rest|, if |contents| < capacity then 0 else 1
      {
        var n := WriteSome(rest);
        NextPiece(b, written, n);
        ExtendTwice(args, b[..written], rest[..n]);
        written := written + n;
        if n == |rest| {
          return written, NoError;
        }
        CurrentCapacity();
        ghost var before := sent;
        var failed := Flush();
        if failed != NoError {
          return written, failed;
        }
        OneMoreFilled(before, |old(sent)|);
        rest := rest[n..];
      }
    }

    static lemma NextPiece(b: Chunk, k: nat, n: nat)
      requires k + n <= |b|
      ensures b[..k] + b[k..][..n] == b[..k + n] && b[k..][n..] == b[k + n..]
      ensures n == |b[k..]| ==> b[..k + n] == b
    {
    }

    lemma NothingFilled()
      ensures Filled(sent, |sent|)
    {
    }

    lemma CurrentCapacity()
      requires Valid() && err == NoError && Writing()
      ensures capacity == sender.capacity(|sent|)
    {
    }

    lemma OneMoreFilled(before: seq<Fragment>, from: nat)
      requires |sent| == |before| + 1 && before <= sent
      requires Filled(before, from)
      requires |sent[|before|].contents| + ChunkHeaderSize >= sender.capacity(|before|)
      ensures Filled(sent, from)
    {
    }

    lemma ArgsNonEmpty()
      requires Valid() && err == NoError && Writing()
      ensures Args() != []
    {
    }

    /** The last argument is complete: send the last fragment. */
    method CloseLast()
      requires Valid() && err == NoError && state == InLastArgument
      modifies this
      ensures Valid() && (Reliable() ==> err == NoError)
      ensures err == NoError ==> state == Complete && Args() == old(Args()) && SentOne(|old(contents)|)
    {
      hide EncodeChunks, Denote, Sent, Carries, Draft, SizePlace, AllData, Data, Fits;
      FinishChunk();
      SentExtend(sent, done, digest, chunks, false);
      state := Complete;
      FlushFragment(false);
    }

    /** There is no room for another argument: go on in a new fragment, whose first chunk
        is empty to say that the argument has ended. */
    method CloseFull()
      requires Sensible() && err == NoError && state == Waiting && Sent(sent, done, digest) && Held(1)
      requires OpenFragment() && contents == EncodeChunks(chunks) && NonEmpty(done + [chunks])
      modifies this
      ensures Valid() && (Reliable() ==> err == NoError)
      ensures err == NoError ==>
        state == Waiting && Args() == Denote(old(done + [chunks])) && SentOne(|old(contents)|)
    {
      hide Denote, Sent, AllData, Data, Fits, EncodeChunks, EncodeUint16;
      NextFragment();
      if err == NoError {
        DenoteNewFragment(done);
        EncodeEmptyChunk();
        FirstFragment(digest);
        contents := contents + EncodeUint16(0);
        chunks := [[]];
      }
    }

    method Close() returns (e: WriteError)
      requires Valid()
      modifies this
      ensures Valid() && e == err
      ensures old(err) != NoError ==> e == old(err)
      ensures old(err) == NoError && !old(Writing()) ==> e == NotWriting
      ensures e == NoError ==>
        && old(err) == NoError && Args() == old(Args())
        && state == if old(state) == InLastArgument then Complete else Waiting
      ensures e == NoError ==>
        if old(state) == InArgument && old(capacity - |contents|) > ChunkHeaderSize then sent == old(sent)
        else SentOne(|old(contents)|)
      ensures Reliable() && old(err) == NoError && old(Writing()) ==> e == NoError
    {
      hide Denote, NonEmpty, Sent, Carries, Draft, SizePlace, AllData, Data, Fits, EncodeChunks;
      var last := state == InLastArgument;
      if err != NoError {
        return err;
      }
      if !Writing() {
        Fail(NotWriting);
        return err;
      }
      if last {
        CloseLast();
        return err;
      }
      SentNonEmpty(sent, done, digest);
      DenoteSnoc(done, chunks);
      FinishChunk();
      state := Waiting;
      if capacity - |contents| > ChunkHeaderSize {
        return NoError;
      }
      CloseFull();
      return err;
    }
  }

  lemma EncodeEmptyChunk()
    ensures Fits([[]]) && EncodeChunks([[]]) == EncodeUint16(0) && Data([[]]) == [] && |EncodeUint16(0)| == 2
  {
    var one: seq<Chunk> := [[]];
    assert one[..0] == [];
    assert EncodeChunks(one) == EncodeChunks([]) + EncodeChunk([]);
    assert Data(one) == Data([]) + [];
  }

  lemma EncodedNotEmpty(chunks: seq<Chunk>)
    requires chunks != [] && Fits(chunks)
    ensures |EncodeChunks(chunks)| >= 2
  {
    EncodedSize(chunks[|chunks| - 1]);
  }

  lemma DraftEmptyChunk()
    ensures Fits([[]]) && Draft([[]]) == EncodeChunks([[]])
  {
    var one: seq<Chunk> := [[]];
    assert one[..0] == [];
    assert EncodeChunks(one) == EncodeChunks([]) + EncodeChunk([]);
  }

  lemma FirstFragment(digest: Checksum)
    ensures Sent([], [], digest) && Fits([]) && EncodeChunks([]) == [] && Data([]) == [] && AllData([]) == []
  {
  }

  lemma BeganArgument(fs: seq<Fragment>, done: seq<seq<Chunk>>, digest: Checksum, chunks: seq<Chunk>)
    requires Sent(fs, done, digest) && (chunks != [] || done == [])
    ensures NonEmpty(done + [chunks + [[]]])
    ensures chunks == [] ==> Denote(done + [chunks + [[]]]) == [[]]
    ensures chunks != [] ==>
      NonEmpty(done + [chunks]) && Denote(done + [chunks + [[]]]) == Denote(done + [chunks]) + [[]]
  {
    SentNonEmpty(fs, done, digest);
    if chunks == [] {
      DenoteSnoc(done, chunks + [[]]);
    } else {
      DenoteNewChunk(done, chunks);
    }
  }

  lemma ExtendChunk(chunks: seq<Chunk>, done: seq<seq<Chunk>>, b: Chunk, capacity: nat)
    requires chunks != [] && Fits(chunks) && |Draft(chunks)| + |b| <= capacity < 0x1_0000
    ensures var chunks' := ExtendLast(chunks, b);
      && chunks' != [] && Fits(chunks')
      && Draft(chunks') == Draft(chunks) + b && SizePlace(chunks') == SizePlace(chunks)
      && |chunks'[|chunks'| - 1]| == |chunks[|chunks| - 1]| + |b| < 0x1_0000
      && AllData(done) + Data(chunks') == (AllData(done) + Data(chunks)) + b
  {
    DraftSize(chunks);
    assert Fits(ExtendLast(chunks, b));
    DraftExtend(chunks, b);
    DataExtend(chunks, b);
    assert AllData(done) + (Data(chunks) + b) == (AllData(done) + Data(chunks)) + b;
  }

  lemma SentNonEmpty(fs: seq<Fragment>, done: seq<seq<Chunk>>, digest: Checksum)
    requires Sent(fs, done, digest)
    ensures done == [] || NonEmpty(done)
  {
    forall i | 0 <= i < |done| ensures done[i] != [] {
      assert CarriesAt(fs[i], done, digest, i, true);
    }
  }
}
