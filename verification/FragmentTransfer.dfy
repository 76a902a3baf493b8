/**
  A message written by one side and read by the other: whatever the fragment sizes, the
  pieces the writer is given and the buffers the reader uses, the arguments arrive.
 */
module FragmentTransfer {
  import opened Fragments
  import W = FragmentingWriters
  import R = FragmentingReaders

  /** What the caller of a writer does within an argument. */
  datatype Piece = Put(bytes: Chunk) | FlushNow

  /** The argument that a caller wrote. */
  function Written(ps: seq<Piece>): Chunk {
    if ps == [] then []
    else
      var p := ps[|ps| - 1];
      Written(ps[..|ps| - 1]) + if p.Put? then p.bytes else []
  }

  function AllWritten(args: seq<seq<Piece>>): seq<Chunk> {
    seq(|args|, i requires 0 <= i < |args| => Written(args[i]))
  }

  lemma ExtendAdded(args: seq<Chunk>, a: Chunk, b: Chunk)
    ensures ExtendLast(args + [a], b) == args + [a + b]
  {
  }

  method WriteArgument(w: W.FragmentingWriter, ps: seq<Piece>, last: bool)
    requires w.Valid() && w.err == W.NoError && w.Reliable() && w.Roomy()
    requires (w.state == W.Start || w.state == W.Waiting)
    modifies w
    ensures w.Valid() && w.err == W.NoError && w.state == (if last then W.Complete else W.Waiting)
    ensures w.Args() == old(w.Args()) + [Written(ps)]
    ensures old(w.sent) <= w.sent && (last ==> |w.sent| > |old(w.sent)|)
    ensures FlushNow !in ps ==> w.Filled(if last then w.sent[..|w.sent| - 1] else w.sent, |old(w.sent)|)
  {
    hide W.FragmentingWriter.Valid, W.FragmentingWriter.Args, ExtendLast;
    hide W.FragmentingWriter.Reliable, W.FragmentingWriter.Roomy, W.FragmentingWriter.Cramped;
    ghost var args, sent := w.Args(), w.sent;
    var e := w.BeginArgument(last);
    for i := 0 to |ps|
      invariant w.Valid() && w.err == W.NoError && w.state == (if last then W.InLastArgument else W.InArgument)
      invariant w.Args() == args + [Written(ps[..i])]
      invariant sent <= w.sent && (FlushNow !in ps ==> w.Filled(w.sent, |sent|))
    {
      assert ps[..i + 1][..i] == ps[..i];
      match ps[i] {
        case Put(b) =>
          ghost var before := w.sent;
          var n, failed := w.Write(b);
          ExtendAdded(args, Written(ps[..i]), b);
          FilledOn(w, before, |sent|);
        case FlushNow =>
          var failed := w.Flush();
          assert Written(ps[..i]) + [] == Written(ps[..i]);
      }
    }
    assert ps[..|ps|] == ps;
    ghost var before := w.sent;
    w.CurrentCapacity();
    e := w.Close();
    FilledLast(w, before, |sent|, last);
  }

  lemma FilledOn(w: W.FragmentingWriter, before: seq<Fragment>, from: nat)
    requires before <= w.sent && from <= |before| && w.Filled(w.sent, |before|)
    ensures w.Filled(before, from) ==> w.Filled(w.sent, from)
  {
  }

  lemma FilledLast(w: W.FragmentingWriter, before: seq<Fragment>, from: nat, last: bool)
    requires before <= w.sent && from <= |before|
    requires if last then |w.sent| == |before| + 1
      else w.sent == before
           || (|w.sent| == |before| + 1
               && |w.sent[|before|].contents| + ChunkHeaderSize >= w.sender.capacity(|before|))
    ensures w.Filled(before, from) ==> w.Filled(if last then w.sent[..|w.sent| - 1] else w.sent, from)
  {
  }

  /** The caller does not flush. */
  ghost predicate NoFlush(args: seq<seq<Piece>>, pause: nat -> bool) {
    (forall i :: 0 <= i < |args| ==> FlushNow !in args[i]) && forall k :: !pause(k)
  }

  lemma NothingSent(w: W.FragmentingWriter)
    requires w.Valid() && w.err == W.NoError && w.state == W.Start
    ensures w.sent == [] && w.Args() == [] && w.Filled(w.sent, 0)
  {
  }

  lemma AllWrittenNone()
    ensures AllWritten([]) == []
  {
  }

  lemma AllWrittenNext(args: seq<seq<Piece>>, i: nat)
    requires i < |args|
    ensures AllWritten(args[..i + 1]) == AllWritten(args[..i]) + [Written(args[i])]
  {
  }

  lemma FilledFurther(w: W.FragmentingWriter, before: seq<Fragment>, last: bool)
    requires before <= w.sent && w.Filled(before, 0) && (last ==> |w.sent| > |before|)
    requires w.Filled(if last then w.sent[..|w.sent| - 1] else w.sent, |before|)
    ensures w.Filled(if last then w.sent[..|w.sent| - 1] else w.sent, 0)
  {
  }

  /** Write arguments, flushing after those that `pause` picks. */
  method WriteMessage(w: W.FragmentingWriter, args: seq<seq<Piece>>, pause: nat -> bool)
    requires w.Valid() && w.err == W.NoError && w.Reliable() && w.Roomy() && w.state == W.Start && args != []
    modifies w
    ensures w.Valid() && w.err == W.NoError && w.state == W.Complete && w.Args() == AllWritten(args)
    ensures NoFlush(args, pause) ==> w.sent != [] && w.Filled(w.sent[..|w.sent| - 1], 0)
  {
    hide W.FragmentingWriter.Valid, W.FragmentingWriter.Reliable, W.FragmentingWriter.Roomy;
    hide W.FragmentingWriter.Args, W.FragmentingWriter.Filled, AllWritten;
    NothingSent(w);
    AllWrittenNone();
    for i := 0 to |args|
      invariant w.Valid() && w.err == W.NoError
      invariant w.state == if i == 0 then W.Start else if i == |args| then W.Complete else W.Waiting
      invariant w.Args() == AllWritten(args[..i])
      invariant NoFlush(args, pause) ==> if i < |args| then w.Filled(w.sent, 0)
        else w.sent != [] && w.Filled(w.sent[..|w.sent| - 1], 0)
    {
      ghost var before := w.sent;
      WriteArgument(w, args[i], i == |args| - 1);
      if NoFlush(args, pause) {
        FilledFurther(w, before, i == |args| - 1);
      }
      if i < |args| - 1 && pause(i) {
        var e := w.Flush();
      }
      AllWrittenNext(args, i);
    }
    assert args[..|args|] == args;
  }

  /** Read what is left of an argument with buffers of any sizes. */
  method ReadToEnd(r: R.FragmentingReader, buffer: nat -> nat) returns (data: Chunk, e: R.ReadError)
    requires r.Valid() && r.err == R.NoError && r.Reading() && forall k :: buffer(k) > 0
    modifies r
    ensures r.Valid() && e == r.err && r.straight == old(r.straight)
    ensures e == R.NoError ==>
      r.state == old(r.state) && r.AtEnd() && old(r.out) != [] && r.out == ExtendLast(old(r.out), data)
    ensures r.Proper() ==> e == R.NoError && R.Taken(old(r.Pending()), data, r.Pending()) && r.Pending()[0] == []
  {
    hide R.FragmentingReader.History, R.FragmentingReader.Placed, R.FragmentingReader.Pending, R.FragmentingReader.Here;
    hide R.FragmentingReader.Proper, R.Taken, ExtendLast, R.After;
    data, e := [], R.NoError;
    var eof := false;
    var k := 0;
    r.OutNonEmpty();
    ExtendNothing(r.out);
    ghost var all := if r.Proper() then r.Pending() else [];
    if r.Proper() {
      R.TakenNothing(all);
    }
    while !eof
      invariant r.Valid() && r.err == R.NoError && e == R.NoError && r.state == old(r.state)
      invariant r.straight == old(r.straight) && r.out == ExtendLast(old(r.out), data)
      invariant r.Proper() ==> R.Taken(all, data, r.Pending())
      invariant eof ==> r.AtEnd() && (r.Proper() ==> r.Pending()[0] == [])
      decreases !eof, |r.incoming| - r.received, |r.curChunk|
    {
      var part;
      ghost var before := if r.Proper() then r.Pending() else [];
      part, eof, e := r.Read(buffer(k));
      if e != R.NoError {
        return;
      }
      if r.Proper() {
        R.TakenTwice(all, data, before, part, r.Pending());
        R.TakenLength(before, part, r.Pending());
      }
      ExtendTwice(old(r.out), data, part);
      data := data + part;
      k := k + 1;
    }
  }

  /** Begin an argument, read it to its end and close it. */
  method ReadArgument(r: R.FragmentingReader, last: bool, buffer: nat -> nat) returns (data: Chunk, e: R.ReadError)
    requires r.Valid() && r.err == R.NoError && (r.state == R.Start || r.state == R.Waiting)
    requires forall k :: buffer(k) > 0
    modifies r
    ensures r.Valid() && e == r.err
    ensures e == R.NoError ==>
      && r.state == (if last then R.Complete else R.Waiting)
      && r.straight == old(r.straight) && r.out == old(r.out) + [data]
    ensures r.Proper() && (last <==> |old(Upcoming(r))| == 1) ==>
      && e == R.NoError && data == old(Upcoming(r))[0]
      && (!last ==> r.Pending() == old(Upcoming(r))[1..])
  {
    hide R.FragmentingReader.History, R.FragmentingReader.Placed, R.FragmentingReader.Pending, R.FragmentingReader.Here;
    hide R.FragmentingReader.Proper, ExtendLast, R.After;
    data := [];
    e := r.BeginArgument(last);
    if e != R.NoError {
      return;
    }
    ghost var out := old(r.out);
    data, e := ReadToEnd(r, buffer);
    if e != R.NoError {
      return;
    }
    ExtendAdded(out, [], data);
    assert [] + data == data;
    e := r.Close();
  }

  /** What a reader between arguments will read next, if it reads a proper series. */
  ghost function Upcoming(r: R.FragmentingReader): (args: seq<Chunk>)
    requires r.Valid() && r.err == R.NoError && (r.state == R.Start || r.state == R.Waiting)
    reads r
    ensures args != []
  {
    if !r.Proper() then [[]]
    else if r.state == R.Start then
      r.ProperNonEmpty();
      Denote(r.series)
    else r.Pending()
  }

  /** Read `n` arguments, the last of which ends the message, or as many as there are without an error. */
  method ReadMessage(r: R.FragmentingReader, n: nat, buffer: nat -> nat) returns (args: seq<Chunk>, e: R.ReadError)
    requires r.Valid() && r.err == R.NoError && r.state == R.Start && r.straight && n > 0
    requires forall k :: buffer(k) > 0
    modifies r
    ensures r.Valid() && e == r.err
    ensures e == R.NoError ==> |args| == n && r.state == R.Complete && r.straight && r.out == args
    ensures r.Proper() && n == |old(Upcoming(r))| ==> e == R.NoError && args == old(Upcoming(r))
  {
    hide R.FragmentingReader.Valid, R.FragmentingReader.Proper, R.FragmentingReader.Placed, R.FragmentingReader.History;
    hide Denote, NonEmpty, R.FragmentingReader.Pending;
    args, e := [], R.NoError;
    ghost var all := Upcoming(r);
    NothingOut(r);
    for i := 0 to n
      invariant r.Valid() && r.err == R.NoError && e == R.NoError && r.straight && r.out == args && |args| == i
      invariant r.state == if i == 0 then R.Start else if i == n then R.Complete else R.Waiting
      invariant r.Proper() && n == |all| ==> args == all[..i] && (i < n ==> Upcoming(r) == all[i..])
    {
      var data;
      if n == |all| {
        NextOf(all, i);
      }
      data, e := ReadArgument(r, i == n - 1, buffer);
      if e != R.NoError {
        return;
      }
      args := args + [data];
    }
    assert all[..|all|] == all;
  }

  lemma NextOf(all: seq<Chunk>, i: nat)
    requires i < |all|
    ensures |all[i..]| == |all| - i && all[i..][0] == all[i] && all[i..][1..] == all[i + 1..]
    ensures all[..i] + [all[i]] == all[..i + 1]
  {
  }

  lemma NothingOut(r: R.FragmentingReader)
    requires r.Valid() && r.err == R.NoError && r.state == R.Start
    ensures r.out == []
  {
  }

  /**
    The round trip. However the callers cut up what they write, whatever room each fragment
    has and whatever buffers the other side reads with, it reads the arguments written.
   */
  method Transfer(sender: W.Sender, digest: Checksum, table: seq<Checksum>,
                  args: seq<seq<Piece>>, pause: nat -> bool, buffer: nat -> nat)
    returns (received: seq<Chunk>, frames: seq<Fragment>)
    requires digest.code < |table| && table[digest.code] == digest && Sized(digest)
    requires args != [] && (forall k :: 5 <= sender.capacity(k) < 0x1_0000) && (forall k :: !sender.fails(k))
    requires forall k :: buffer(k) > 0
    ensures received == AllWritten(args)
    ensures |frames| > 0 && forall i :: 0 <= i < |frames| ==> frames[i].more == (i < |frames| - 1)
    ensures forall i :: 0 <= i < |frames| ==> |frames[i].contents| <= sender.capacity(i)
    ensures NoFlush(args, pause) ==>
      forall i :: 0 <= i < |frames| - 1 ==> |frames[i].contents| + ChunkHeaderSize >= sender.capacity(i)
    ensures frames[|frames| - 1].sum == digest.sum(Data(AllWritten(args)))
  {
    hide W.Sent, W.FragmentingWriter.InChunk, W.FragmentingWriter.OpenFragment, R.FragmentingReader.Pending, Carries;
    var w := new W.FragmentingWriter(sender, digest);
    WriteMessage(w, args, pause);
    frames := w.sent;
    SentOnWire(frames, w.done, digest);
    var r := new R.FragmentingReader(frames, R.ConnectionFailed, table, digest, w.done);
    CarriesNonEmpty(frames, w.done, digest);
    CarriesAll(frames, w.done, digest);
    LastSum(frames, w.done, digest);
    MoreFollow(frames, w.done, digest);
    assert Upcoming(r) == AllWritten(args);
    var e;
    received, e := ReadMessage(r, |args|, buffer);
  }

  lemma MoreFollow(fs: seq<Fragment>, cs: seq<seq<Chunk>>, digest: Checksum)
    requires Carries(fs, cs, digest)
    ensures |fs| > 0 && forall i :: 0 <= i < |fs| ==> fs[i].more == (i < |fs| - 1)
  {
    forall i | 0 <= i < |fs| ensures fs[i].more == (i < |fs| - 1) {
      assert CarriesAt(fs[i], cs, digest, i, i < |fs| - 1);
    }
  }

  /** The last checksum is that of all arguments. */
  lemma LastSum(fs: seq<Fragment>, cs: seq<seq<Chunk>>, digest: Checksum)
    requires Carries(fs, cs, digest) && NonEmpty(cs)
    ensures fs != [] && fs[|fs| - 1].sum == digest.sum(Data(Denote(cs)))
  {
    var k := |fs| - 1;
    assert CarriesAt(fs[k], cs, digest, k, k < |fs| - 1);
    assert cs[..k + 1] == cs;
    DataIsArguments(cs);
  }

  lemma SentOnWire(fs: seq<Fragment>, cs: seq<seq<Chunk>>, digest: Checksum)
    requires Carries(fs, cs, digest) && Sized(digest)
    ensures forall f :: f in fs ==> OnWire(f)
  {
    forall f | f in fs ensures OnWire(f) {
      var i :| 0 <= i < |fs| && fs[i] == f;
      assert CarriesAt(fs[i], cs, digest, i, i < |fs| - 1);
    }
  }

  lemma CarriesAll(fs: seq<Fragment>, cs: seq<seq<Chunk>>, digest: Checksum)
    requires Carries(fs, cs, digest)
    ensures |cs| <= |fs| && fs[..|cs|] == fs
  {
  }

  // Any fragments at all

  /** The first `k` fragments carry `n` arguments, in chunks. */
  ghost predicate Sendable(incoming: seq<Fragment>, table: seq<Checksum>, n: nat, k: nat, series: seq<seq<Chunk>>) {
    && 0 < k <= |incoming| && incoming[0].kind < |table|
    && Carries(incoming[..k], series, table[incoming[0].kind]) && NonEmpty(series) && |Denote(series)| == n
  }

  /** A checksum that is found under another type code than its own has sums of another size. */
  ghost predicate Coherent(table: seq<Checksum>) {
    forall k: byte :: k < |table| ==> table[k].code == k || forall x :: |table[k].sum(x)| != ChecksumSize(k)
  }

  lemma StandardCoherent(crc32: seq<byte> -> seq<byte>, crc32c: seq<byte> -> seq<byte>)
    ensures Coherent(StandardTable(crc32, crc32c))
  {
  }

  /** It is determined which fragments carry a message, and what they carry. */
  lemma SendableUnique(incoming: seq<Fragment>, table: seq<Checksum>, n: nat, k: nat, series: seq<seq<Chunk>>,
                       n': nat, k': nat, series': seq<seq<Chunk>>)
    requires Sendable(incoming, table, n, k, series) && Sendable(incoming, table, n', k', series') && k <= k'
    ensures k == k' && series == series' && n == n'
  {
    var c := table[incoming[0].kind];
    var fs, fs' := incoming[..k], incoming[..k'];
    assert CarriesAt(fs[k - 1], series, c, k - 1, false);
    assert CarriesAt(fs'[k - 1], series', c, k - 1, k - 1 < k' - 1);
    forall i | 0 <= i < k ensures series[i] == series'[i] {
      assert CarriesAt(fs[i], series, c, i, i < k - 1) && CarriesAt(fs'[i], series', c, i, i < k' - 1);
      ParseEncode(series[i]);
      ParseEncode(series'[i]);
    }
  }

  /**
    The reader is sound and complete. Whatever fragments come in, it reads `n` arguments to the end of
    the message without an error exactly when they begin with a series that carries `n` arguments,
    and then these are the arguments.
   */
  method ReadAny(incoming: seq<Fragment>, ending: R.Ending, table: seq<Checksum>, n: nat, buffer: nat -> nat)
    returns (args: seq<Chunk>, e: R.ReadError)
    requires (forall f :: f in incoming ==> OnWire(f)) && Coherent(table) && n > 0
    requires forall k :: buffer(k) > 0
    ensures e == R.NoError <==> exists k, series :: Sendable(incoming, table, n, k, series)
    ensures forall k, series :: Sendable(incoming, table, n, k, series) ==> args == Denote(series)
  {
    hide Carries, Denote, NonEmpty, Coherent;
    ghost var k: nat, series: seq<seq<Chunk>>, digest := 0, [], Checksum(0, _ => []);
    ghost var sendable := exists k, series :: Sendable(incoming, table, n, k, series);
    if sendable {
      k, series :| Sendable(incoming, table, n, k, series);
      digest := table[incoming[0].kind];
    }
    var r := new R.FragmentingReader(incoming, ending, table, digest, series);
    if sendable {
      SendableProper(incoming, table, n, k, series);
      r.ProperNonEmpty();
    }
    args, e := ReadMessage(r, n, buffer);
    if e == R.NoError {
      Completed(r);
    }
    forall k', series' | Sendable(incoming, table, n, k', series') ensures args == Denote(series') {
      if k <= k' {
        SendableUnique(incoming, table, n, k, series, n, k', series');
      } else {
        SendableUnique(incoming, table, n, k', series', n, k, series);
      }
    }
  }

  lemma SendableProper(incoming: seq<Fragment>, table: seq<Checksum>, n: nat, k: nat, series: seq<seq<Chunk>>)
    requires Sendable(incoming, table, n, k, series)
    ensures |series| == k && table[incoming[0].kind].code == incoming[0].kind
  {
    assert CarriesAt(incoming[..k][0], series, table[incoming[0].kind], 0, 0 < k - 1);
  }

  /** A reader that came to the end of a message has read a series that was sent properly. */
  lemma Completed(r: R.FragmentingReader)
    requires r.Valid() && r.err == R.NoError && r.state == R.Complete && r.straight && Coherent(r.table)
    ensures Sendable(r.incoming, r.table, |r.out|, r.received, r.accepted) && r.out == Denote(r.accepted)
  {
    hide Parse, Data, AllData, EncodeChunks, Denote, Carries, NonEmpty, Glue;
    var fs, c := r.incoming[..r.received], r.running.c;
    assert R.TookAt(fs[0], r.accepted, c, 0);
    assert forall i :: 0 <= i < |fs| ==> fs[i] == r.incoming[i] && r.incoming[i] in r.incoming;
    assert OnWire(fs[0]) && |c.sum(AllData(r.accepted[..1]))| == ChecksumSize(fs[0].kind);
    R.TookCarries(fs, r.accepted, c);
  }

  // Fragments that are too small

  /** With fragments of three or four bytes, which can still carry one argument, a second
      argument never begins. */
  method TinyFragmentsPanic(sender: W.Sender, digest: Checksum, ps: seq<Chunk>, last: bool) returns (e: W.WriteError)
    requires (forall k :: 3 <= sender.capacity(k) <= 4) && (forall k :: !sender.fails(k))
    ensures e == W.NoRoom
  {
    hide W.Sent, W.FragmentingWriter.InChunk, Fits, EncodeChunks, Data, AllData;
    var w := new W.FragmentingWriter(sender, digest);
    e := w.BeginArgument(false);
    for i := 0 to |ps|
      invariant w.Valid() && w.err == W.NoError && w.state == W.InArgument
    {
      var n, failed := w.Write(ps[i]);
    }
    e := w.Close();
    assert w.capacity == sender.capacity(w.fragments - 1);
    w.TinyIsCramped();
    e := w.BeginArgument(last);
  }

  // Closing without having seen the end

  /**
    Reading exactly the bytes of an argument and closing it is only right if the argument
    does not end with its fragment. If it does, the caller next finds an empty argument.
   */
  method CloseAfterExactRead(r: R.FragmentingReader, n: nat) returns (data: Chunk, eof: bool, e: R.ReadError)
    requires r.Valid() && r.Proper() && r.err == R.NoError && r.state == R.InArgument && n == |r.Pending()[0]|
    modifies r
    ensures r.Valid() && e == r.err && data == old(r.Pending())[0] && !eof
    ensures e == R.NoError <==> R.EndsFragment(old(r.Here())) || |old(r.Pending())| > 1
    ensures e == R.NoError ==>
      && r.state == R.Waiting
      && r.Pending() == (if R.EndsFragment(old(r.Here())) then [[]] else []) + old(r.Pending())[1..]
  {
    hide R.Rest, R.After, R.EndsFragment, Carries, Denote, NonEmpty, AllData;
    R.ExactReadIff(r.Here());
    data, eof, e := r.Read(n);
    r.HereIs();
    r.NothingLeft();
    e := r.Close();
  }

  /** The bytes [1, 2, 3] and [9] in fragments of five bytes. */
  ghost const FiveByteSeries: seq<seq<Chunk>> := [[[1, 2, 3]], [[], [9]]]

  function FiveByteFrames(digest: Checksum): seq<Fragment> {
    [Fragment([0, 3, 1, 2, 3], true, digest.code, digest.sum([1, 2, 3])),
     Fragment([0, 0, 0, 1, 9], false, digest.code, digest.sum([1, 2, 3, 9]))]
  }

  lemma EncodeOne(c: Chunk)
    requires |c| < 0x1_0000
    ensures Fits([c]) && EncodeChunks([c]) == EncodeChunk(c) && Data([c]) == c
  {
    var one: seq<Chunk> := [c];
    assert one[..0] == [];
    assert EncodeChunks(one) == EncodeChunks([]) + EncodeChunk(c);
    assert Data(one) == Data([]) + c;
  }

  lemma FiveByteChunks()
    ensures Fits([[1, 2, 3]]) && EncodeChunks([[1, 2, 3]]) == [0, 3, 1, 2, 3] && Data([[1, 2, 3]]) == [1, 2, 3]
    ensures Fits([[], [9]]) && EncodeChunks([[], [9]]) == [0, 0, 0, 1, 9] && Data([[], [9]]) == [9]
  {
    var x, y, z: Chunk := [1, 2, 3], [], [9];
    EncodeOne(x);
    EncodeOne(y);
    EncodeOne(z);
    var two: seq<Chunk> := [y, z];
    assert two[..1] == [y];
    assert EncodeChunks(two) == EncodeChunks([y]) + EncodeChunk(z);
    assert Data(two) == Data([y]) + z;
  }

  lemma FiveByteCarries(digest: Checksum)
    ensures Carries(FiveByteFrames(digest), FiveByteSeries, digest)
    ensures NonEmpty(FiveByteSeries) && Denote(FiveByteSeries) == [[1, 2, 3], [9]]
    ensures R.EndsFragment(R.Spot([1, 2, 3], [], FiveByteSeries[1..]))
  {
    FiveByteChunks();
    hide EncodeChunks, Fits, Data;
    var cs := FiveByteSeries;
    assert cs[..1] == [cs[0]] && cs[..2] == cs && cs[..0] == [] && cs[1..] == [cs[1]];
    assert AllData(cs[..1]) == AllData([]) + Data(cs[0]) == [1, 2, 3];
    assert AllData(cs) == AllData(cs[..1]) + Data(cs[1]) == [1, 2, 3, 9];
    assert Denote(cs[..1]) == cs[0];
    assert cs[0][0] + cs[1][0] == [1, 2, 3];
    assert Denote(cs) == Glue(cs[0], cs[1]) == [[1, 2, 3], [9]];
    assert Denote([cs[1]]) == cs[1];
  }

  /** Both arguments were sent, but the caller that reads the first one exactly gets an empty
      second one, and cannot end the message. */
  method ExactReadLosesArgument(digest: Checksum, table: seq<Checksum>)
    returns (first: Chunk, second: Chunk, eof: bool, e: R.ReadError)
    requires digest.code < |table| && table[digest.code] == digest && Sized(digest)
    ensures first == [1, 2, 3] && second == [] && eof && e == R.ExpectedMoreArguments
  {
    hide Carries, Denote, NonEmpty, R.Rest, R.EndsFragment, AllData, R.After;
    FiveByteCarries(digest);
    SentOnWire(FiveByteFrames(digest), FiveByteSeries, digest);
    CarriesAll(FiveByteFrames(digest), FiveByteSeries, digest);
    var r := new R.FragmentingReader(FiveByteFrames(digest), R.ConnectionFailed, table, digest, FiveByteSeries);
    e := r.BeginArgument(false);
    first, eof, e := CloseAfterExactRead(r, 3);
    e := r.BeginArgument(true);
    second, eof, e := r.Read(1);
    e := r.Close();
  }
}
