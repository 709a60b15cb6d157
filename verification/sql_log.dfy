/**
 The writer of SQL logs: what connections log is gathered in a buffer for each of them, and one
 loop sends the buffers to the sink, one at a time, while more is being logged.
 */
module SqlLog {
  import opened Bytes
  import opened Results
  import opened Realloc
  import opened Totals

  datatype Key = Key(dsn: nat, connectionId: nat)

  /** What reached the sink with one write: the banner, if the sink was at another connection, and the data. */
  datatype Chunk = Chunk(key: Key, banner: seq<byte>, data: seq<byte>)

  /** All that was sent for a connection, banners removed. */
  ghost function SentFor(sink: seq<Chunk>, key: Key): seq<byte> {
    if sink == [] then []
    else
      var last := |sink| - 1;
      SentFor(sink[..last], key) + (if sink[last].key == key then sink[last].data else [])
  }

  lemma SentOne(sink: seq<Chunk>, c: Chunk, key: Key)
    ensures SentFor(sink + [c], key) == SentFor(sink, key) + (if c.key == key then c.data else [])
  {
    assert (sink + [c])[..|sink|] == sink;
  }

  ghost function Sizes(pending: map<Key, View>): map<Key, nat> {
    map k | k in pending :: pending[k].buffer.Length
  }

  ghost function Logged(logged: map<Key, seq<byte>>, key: Key): seq<byte> {
    if key in logged then logged[key] else []
  }

  ghost function Held(contents: map<Key, seq<byte>>, key: Key): seq<byte> {
    if key in contents then contents[key] else []
  }

  /** The write that the sink is doing: `banner + data`, that the buffer of `key` begins with. */
  datatype Flight = Flight(key: Key, banner: seq<byte>, data: seq<byte>)

  ghost predicate FlightOk(contents: map<Key, seq<byte>>, flight: Option<Flight>) {
    flight.Some? ==>
      flight.value.key in contents && flight.value.banner + flight.value.data <= contents[flight.value.key]
  }

  ghost function DataInFlight(flight: Option<Flight>, k: Key): seq<byte> {
    if flight.Some? && flight.value.key == k then flight.value.data else []
  }

  /** The part of a buffer that the sink has not begun to write. */
  ghost function Rest(contents: map<Key, seq<byte>>, flight: Option<Flight>, k: Key): seq<byte>
    requires FlightOk(contents, flight)
  {
    if flight.Some? && flight.value.key == k then Held(contents, k)[|flight.value.banner + flight.value.data|..]
    else Held(contents, k)
  }

  /** What was sent, what is being sent and what waits is what was logged, for each connection. */
  ghost predicate NothingLost(sink: seq<Chunk>, contents: map<Key, seq<byte>>, flight: Option<Flight>,
      logged: map<Key, seq<byte>>)
    requires FlightOk(contents, flight)
  {
    forall k :: SentFor(sink, k) + DataInFlight(flight, k) + Rest(contents, flight, k) == Logged(logged, k)
  }

  /** What was sent for a connection is the beginning of what was logged for it. */
  ghost predicate SentInPart(sink: seq<Chunk>, logged: map<Key, seq<byte>>) {
    forall k :: SentFor(sink, k) <= Logged(logged, k)
  }

  lemma NothingLostInPart(sink: seq<Chunk>, contents: map<Key, seq<byte>>, flight: Option<Flight>,
      logged: map<Key, seq<byte>>)
    requires FlightOk(contents, flight) && NothingLost(sink, contents, flight, logged)
    ensures SentInPart(sink, logged)
  {
    hide SentFor, Rest, FlightOk;
    forall k
      ensures SentFor(sink, k) <= Logged(logged, k)
    {
      var sent, rest := SentFor(sink, k), DataInFlight(flight, k) + Rest(contents, flight, k);
      ConcatAssoc(sent, DataInFlight(flight, k), Rest(contents, flight, k));
      assert sent + rest == Logged(logged, k);
    }
  }

  lemma AppendKeeps(sink: seq<Chunk>, contents: map<Key, seq<byte>>, flight: Option<Flight>,
      logged: map<Key, seq<byte>>, key: Key, more: seq<byte>)
    requires FlightOk(contents, flight) && NothingLost(sink, contents, flight, logged)
    ensures var contents' := contents[key := Held(contents, key) + more];
      && FlightOk(contents', flight)
      && NothingLost(sink, contents', flight, logged[key := Logged(logged, key) + more])
  {
    hide SentFor, Rest, DataInFlight, FlightOk;
    var contents' := contents[key := Held(contents, key) + more];
    MoreRest(contents, flight, key, more, key);
    assert FlightOk(contents', flight);
    forall k
      ensures SentFor(sink, k) + DataInFlight(flight, k) + Rest(contents', flight, k)
        == Logged(logged[key := Logged(logged, key) + more], k)
    {
      MoreRest(contents, flight, key, more, k);
      if k == key {
        ConcatAssoc(SentFor(sink, k) + DataInFlight(flight, k), Rest(contents, flight, k), more);
      }
    }
  }

  lemma MoreRest(contents: map<Key, seq<byte>>, flight: Option<Flight>, key: Key, more: seq<byte>, k: Key)
    requires FlightOk(contents, flight)
    ensures var contents' := contents[key := Held(contents, key) + more];
      FlightOk(contents', flight)
      && Rest(contents', flight, k) == Rest(contents, flight, k) + (if k == key then more else [])
  {
    var rest := Rest(contents, flight, k);
    assert rest + [] == rest;
  }

  /** A write begins: of all that the buffer holds, with a banner before it. */
  lemma TakeOffKeeps(sink: seq<Chunk>, contents: map<Key, seq<byte>>, logged: map<Key, seq<byte>>, key: Key,
      banner: seq<byte>)
    requires NothingLost(sink, contents, None, logged) && key in contents
    ensures var f := Some(Flight(key, banner, contents[key]));
      var contents' := contents[key := banner + contents[key]];
      FlightOk(contents', f) && NothingLost(sink, contents', f, logged)
  {
    hide SentFor;
    var f := Some(Flight(key, banner, contents[key]));
    var contents' := contents[key := banner + contents[key]];
    forall k
      ensures SentFor(sink, k) + DataInFlight(f, k) + Rest(contents', f, k) == Logged(logged, k)
    {
      assert SentFor(sink, k) + [] + Rest(contents, None, k) == SentFor(sink, k) + Rest(contents, None, k) + [];
    }
  }

  /** A write is done. */
  lemma LandingKeeps(sink: seq<Chunk>, contents: map<Key, seq<byte>>, f: Flight, logged: map<Key, seq<byte>>)
    requires FlightOk(contents, Some(f)) && NothingLost(sink, contents, Some(f), logged)
    ensures var rest := Rest(contents, Some(f), f.key);
      var sink' := sink + [Chunk(f.key, f.banner, f.data)];
      && (rest == [] ==> NothingLost(sink', contents - {f.key}, None, logged))
      && (rest != [] ==> NothingLost(sink', contents[f.key := rest], None, logged))
  {
    hide SentFor;
    var rest := Rest(contents, Some(f), f.key);
    var c := Chunk(f.key, f.banner, f.data);
    var after := if rest == [] then contents - {f.key} else contents[f.key := rest];
    forall k
      ensures SentFor(sink + [c], k) + DataInFlight(None, k) + Rest(after, None, k) == Logged(logged, k)
    {
      SentOne(sink, c, k);
      assert SentFor(sink + [c], k) + [] == SentFor(sink + [c], k);
      assert SentFor(sink, k) + DataInFlight(Some(f), k) == SentFor(sink + [c], k);
    }
  }

  /** How a call of `write()` ends: it throws, returns at once, or waits for the buffers to empty. */
  datatype Outcome = Thrown | Returned | Waits(id: nat)

  // ---- the buffers

  /** Every connection has a buffer of its own, and all of them are in `repr`. */
  ghost predicate Separate(pending: map<Key, View>, repr: set<array<byte>>) {
    && (forall k :: k in pending ==> pending[k].Fits() && pending[k].buffer in repr)
    && (forall k, l :: k in pending && l in pending && k != l ==> pending[k].buffer != pending[l].buffer)
  }

  ghost function Contents(pending: map<Key, View>, repr: set<array<byte>>): map<Key, seq<byte>>
    requires Separate(pending, repr)
    reads repr
  {
    map k | k in pending :: pending[k].Bytes()
  }

  lemma ContentsShow(pending: map<Key, View>, repr: set<array<byte>>)
    requires Separate(pending, repr)
    ensures Contents(pending, repr).Keys == pending.Keys
    ensures forall k :: k in pending ==> Contents(pending, repr)[k] == pending[k].Bytes()
  {
  }

  /** The other connections, as far as `key` has to know. */
  lemma Others(pending: map<Key, View>, repr: set<array<byte>>, key: Key)
    requires Separate(pending, repr)
    ensures key in pending ==> pending[key].Fits() && pending[key].buffer in repr
    ensures forall k :: k in pending && k != key ==>
      pending[k].Fits() && pending[k].buffer in repr && (key in pending ==> pending[k].buffer != pending[key].buffer)
  {
  }

  lemma MoreRoom(pending: map<Key, View>, repr: set<array<byte>>, repr': set<array<byte>>)
    requires Separate(pending, repr) && repr <= repr'
    ensures Separate(pending, repr')
  {
  }

  /** One connection has another view, in its own buffer or in a new one, and the others show what they showed. */
  lemma Replaced(pending: map<Key, View>, repr: set<array<byte>>, was: map<Key, seq<byte>>, key: Key, buf: View)
    requires Separate(pending, repr) && buf.Fits() && buf.buffer in repr && was.Keys == pending.Keys
    requires forall k :: k in pending && k != key ==> buf.buffer != pending[k].buffer && pending[k].Bytes() == was[k]
    ensures Separate(pending[key := buf], repr)
    ensures Contents(pending[key := buf], repr) == was[key := buf.Bytes()]
  {
    hide Contents;
    var after := pending[key := buf];
    assert Separate(after, repr);
    ContentsShow(after, repr);
    hide Separate;
    assert Contents(after, repr) == was[key := buf.Bytes()];
  }

  class SqlLogToWritable {
    const maxBufferSize: nat
    const firstCapacity: nat
    const bannerOf: Key -> Option<seq<byte>>
    var pending: map<Key, View>
    var ongoing: bool
    var continueAfterFlush: seq<nat>
    var isDisposed: bool
    var isBroken: bool
    /** The connection whose data the sink got last. */
    var writerState: Option<Key>
    /** The view that the sink is writing. */
    var inFlight: Option<View>
    var lastId: nat
    ghost var repr: set<array<byte>>
    ghost var flight: Option<Flight>
    ghost var logged: map<Key, seq<byte>>
    ghost var sink: seq<Chunk>

    /**
     The view that the sink reads shows what it showed when the write began, and nobody else's buffer is behind it.
     */
    ghost predicate InFlightOk()
      reads this`pending, this`writerState, this`inFlight, this`flight, this`repr, repr
    {
      && (inFlight.Some? <==> flight.Some?)
      && (flight.Some? ==>
            var v := inFlight.value;
            && writerState == Some(flight.value.key) && v.buffer in repr
            && v.Fits() && v.offset == 0 && v.Bytes() == flight.value.banner + flight.value.data
            && flight.value.key in pending && pending[flight.value.key].offset == 0
            && (forall k :: k in pending && k != flight.value.key ==> pending[k].buffer != v.buffer))
    }

    /** Nothing that was logged is lost, unless the sink has failed. */
    ghost predicate DataOk()
      reads this`pending, this`writerState, this`inFlight, this`flight, this`sink, this`logged, this`isBroken,
      this`repr, repr
    {
      && Separate(pending, repr) && InFlightOk() && FlightOk(Contents(pending, repr), flight)
      && (isBroken || NothingLost(sink, Contents(pending, repr), flight, logged))
    }

    ghost predicate Valid()
      reads this, repr
    {
      && DataOk() && (flight.Some? <==> ongoing)
      && (!ongoing ==> continueAfterFlush == [] && (!isBroken ==> pending == map[]))
      && (isBroken ==> !ongoing && SentInPart(sink, logged)) && maxBufferSize > 0
    }

    constructor (maxBufferSize: nat, firstCapacity: nat, bannerOf: Key -> Option<seq<byte>>)
      requires maxBufferSize > 0
      ensures Valid() && sink == [] && logged == map[] && repr == {} && !isDisposed && !isBroken && !ongoing
    {
      this.maxBufferSize, this.firstCapacity, this.bannerOf := maxBufferSize, firstCapacity, bannerOf;
      pending, ongoing, continueAfterFlush, isDisposed, isBroken := map[], false, [], false, false;
      writerState, inFlight, lastId := None, None, 0;
      repr, flight, logged, sink := {}, None, map[], [];
    }

    /** The capacity of all buffers. */
    method GetMemory() returns (memory: nat)
      ensures memory == Total(Sizes(pending))
    {
      var rest := pending;
      memory := 0;
      while exists k :: k in rest
        invariant memory + Total(Sizes(rest)) == Total(Sizes(pending))
        decreases |rest|
      {
        var k :| k in rest;
        TotalWithout(Sizes(rest), k);
        assert Sizes(rest - {k}) == Sizes(rest) - {k};
        memory := memory + rest[k].buffer.Length;
        rest := rest - {k};
      }
      ZeroTotal(Sizes(rest));
    }

    /** The buffer of a connection; a new one is empty. */
    method BufferOf(key: Key) returns (buf: View)
      requires Separate(pending, repr)
      ensures buf.Fits() && buf.Bytes() == Held(Contents(pending, repr), key)
      ensures if key in pending then buf == pending[key] else fresh(buf.buffer) && buf.offset == 0
    {
      if key in pending {
        return pending[key];
      }
      var buffer := new byte[firstCapacity];
      buf := View(buffer, 0, 0);
    }

    /** The view that is being written keeps showing the same. */
    method AppendToBuffer(key: Key, bytes: View) returns (buf: View)
      requires Separate(pending, repr) && InFlightOk() && FlightOk(Contents(pending, repr), flight)
      requires bytes.Fits() && bytes.buffer !in repr
      modifies if key in pending then {pending[key].buffer} else {}
      ensures buf.Fits() && buf.Bytes() == Held(old(Contents(pending, repr)), key) + old(bytes.Bytes())
      ensures fresh(buf.buffer) || (key in pending && buf.buffer == pending[key].buffer)
      ensures flight.Some? ==> inFlight.value.Bytes() == flight.value.banner + flight.value.data
      ensures flight.Some? && flight.value.key == key ==> buf.offset == 0
    {
      hide SentFor, NothingLost;
      var at := BufferOf(key);
      ghost var shown := at.Bytes();
      buf := ReallocAppend(at, bytes, true);
      if flight.Some? && key in pending && inFlight.value.buffer == pending[key].buffer {
        var v := inFlight.value;
        assert flight.value.key == key;
        assert at.offset == 0 && at.Bytes() == shown;
        assert old(v.Bytes()) <= shown;
        assert v.Bytes() == shown[..v.length];
      }
    }

    /** The bytes go to the buffer of their connection. */
    method Append(key: Key, bytes: View)
      requires DataOk() && !isBroken && bytes.Fits() && bytes.buffer !in repr
      modifies this`pending, this`logged, this`repr, repr
      ensures DataOk() && pending.Keys == old(pending).Keys + {key} && fresh(repr - old(repr))
      ensures Contents(pending, repr) ==
        var was := old(Contents(pending, repr)); was[key := Held(was, key) + old(bytes.Bytes())]
      ensures logged == old(logged)[key := old(Logged(logged, key)) + old(bytes.Bytes())]
    {
      hide SentFor, NothingLost, Held, FlightOk, Contents;
      ghost var more, was, logged0 := bytes.Bytes(), Contents(pending, repr), logged;
      AppendKeeps(sink, was, flight, logged0, key, more);
      StoreAppended(key, bytes);
      logged := logged[key := Logged(logged, key) + more];
    }

    /** The buffer of `key` becomes one that holds the bytes too. */
    method StoreAppended(key: Key, bytes: View)
      requires Separate(pending, repr) && InFlightOk() && FlightOk(Contents(pending, repr), flight)
      requires bytes.Fits() && bytes.buffer !in repr
      modifies this`pending, this`repr, repr
      ensures Separate(pending, repr) && InFlightOk() && pending.Keys == old(pending).Keys + {key}
        && fresh(repr - old(repr))
      ensures Contents(pending, repr) ==
        var was := old(Contents(pending, repr)); was[key := Held(was, key) + old(bytes.Bytes())]
    {
      hide SentFor, NothingLost, Held, FlightOk, Contents, Separate;
      ContentsShow(pending, repr);
      Others(pending, repr, key);
      ghost var was, pending0 := Contents(pending, repr), pending;
      var buf := AppendToBuffer(key, bytes);
      MoreRoom(pending, repr, repr + {buf.buffer});
      forall k | k in pending0 && k != key
        ensures buf.buffer != pending0[k].buffer && pending0[k].Bytes() == was[k]
      {
        assert was[k] == old(pending[k].Bytes());
      }
      repr, pending := repr + {buf.buffer}, pending[key := buf];
      Replaced(pending0, repr, was, key, buf);
      StillInFlight(pending0, key, buf);
    }

    lemma StillInFlight(pending0: map<Key, View>, key: Key, buf: View)
      requires pending == pending0[key := buf] && (inFlight.Some? <==> flight.Some?)
      requires flight.Some? ==>
        var f, v := flight.value, inFlight.value;
        && writerState == Some(f.key) && v.buffer in repr && v.Fits() && v.offset == 0 && v.Bytes() == f.banner + f.data
        && f.key in pending0
             && (if f.key == key then buf.offset == 0 else pending0[f.key].offset == 0 && buf.buffer != v.buffer)
        && forall k :: k in pending0 && k != f.key ==> pending0[k].buffer != v.buffer
      ensures InFlightOk()
    {
    }

    /** The view to write: it begins its buffer, with the banner if there is one. */
    method ToWrite(key: Key, banner: Option<seq<byte>>) returns (buf: View)
      requires Separate(pending, repr) && key in pending
      modifies pending[key].buffer
      ensures buf.Fits() && buf.offset == 0
      ensures buf.Bytes() == (if banner.Some? then banner.value else []) + old(pending[key].Bytes())
      ensures fresh(buf.buffer) || buf.buffer == pending[key].buffer
    {
      buf := pending[key];
      if banner.Some? {
        buf := Prepend(buf, banner.value);
      } else if buf.offset != 0 {
        buf := ToFront(buf);
      }
    }

    /** The next write: all that the buffer of `key` holds, after a banner if the sink was at another connection. */
    method StartWrite(key: Key)
      requires DataOk() && !isBroken && flight.None? && key in pending
      modifies this`pending, this`writerState, this`inFlight, this`flight, this`repr, repr
      ensures DataOk() && flight.Some? && flight.value.key == key && pending.Keys == old(pending).Keys
      ensures fresh(repr - old(repr))
      ensures flight.value.data == old(Contents(pending, repr))[key]
      ensures flight.value.banner ==
        if old(writerState) == Some(key) || bannerOf(key).None? then [] else bannerOf(key).value
      ensures writerState == Some(key)
    {
      hide SentFor, NothingLost, FlightOk, Contents, Separate, InFlightOk;
      ghost var was, pending0 := Contents(pending, repr), pending;
      var banner := if writerState == Some(key) then None else bannerOf(key);
      ghost var first := if banner.Some? then banner.value else [];
      ContentsShow(pending, repr);
      var buf := Replace(key, banner);
      TakeOffKeeps(sink, was, logged, key, first);
      writerState, inFlight, flight := Some(key), Some(buf), Some(Flight(key, first, was[key]));
      NowInFlight(pending0);
    }

    /** The buffer of `key` becomes the one to write. */
    method Replace(key: Key, banner: Option<seq<byte>>) returns (buf: View)
      requires Separate(pending, repr) && key in pending
      modifies this`pending, this`repr, repr
      ensures pending == old(pending)[key := buf] && Separate(pending, repr) && fresh(repr - old(repr))
      ensures buf.Fits() && buf.offset == 0 && buf.buffer in repr
      ensures buf.Bytes() == (if banner.Some? then banner.value else []) + old(Contents(pending, repr)[key])
      ensures Contents(pending, repr) == old(Contents(pending, repr))[key := buf.Bytes()]
      ensures forall k :: k in old(pending) && k != key ==> buf.buffer != old(pending)[k].buffer
    {
      hide Contents, Separate;
      ContentsShow(pending, repr);
      Others(pending, repr, key);
      ghost var was, pending0 := Contents(pending, repr), pending;
      buf := ToWrite(key, banner);
      MoreRoom(pending, repr, repr + {buf.buffer});
      forall k | k in pending0 && k != key
        ensures buf.buffer != pending0[k].buffer && pending0[k].Bytes() == was[k]
      {
        assert was[k] == old(pending[k].Bytes());
      }
      repr, pending := repr + {buf.buffer}, pending[key := buf];
      Replaced(pending0, repr, was, key, buf);
    }

    lemma NowInFlight(pending0: map<Key, View>)
      requires inFlight.Some? && flight.Some? && writerState == Some(flight.value.key)
      requires var f, v := flight.value, inFlight.value;
        && v.buffer in repr && v.Fits() && v.offset == 0 && v.Bytes() == f.banner + f.data
        && pending == pending0[f.key := v]
        && forall k :: k in pending0 && k != f.key ==> v.buffer != pending0[k].buffer
      ensures InFlightOk()
    {
    }

    /** The sink has taken the view that it was given. */
    method Land() returns (key: Key)
      requires DataOk() && !isBroken && flight.Some?
      modifies this`pending, this`inFlight, this`flight, this`sink
      ensures DataOk() && flight.None? && key == old(flight).value.key && repr == old(repr)
      ensures sink == old(sink) + [Chunk(key, old(flight).value.banner, old(flight).value.data)]
      ensures old(inFlight).value.Bytes() == old(flight).value.banner + old(flight).value.data
      ensures pending.Keys == old(pending).Keys || pending.Keys == old(pending).Keys - {key}
    {
      hide SentFor, NothingLost, Contents, Rest, Separate;
      ghost var was, f := Contents(pending, repr), flight.value;
      ContentsShow(pending, repr);
      key := writerState.value;
      RestIs(was, f);
      LandingKeeps(sink, was, f, logged);
      DropFirst(key, inFlight.value.length);
      sink := sink + [Chunk(key, f.banner, f.data)];
      inFlight, flight := None, None;
    }

    /** The first `n` bytes leave the buffer of `key`; an empty one is forgotten. */
    method DropFirst(key: Key, n: nat)
      requires Separate(pending, repr) && key in pending && n <= pending[key].length
      modifies this`pending
      ensures Separate(pending, repr)
      ensures pending.Keys == old(pending).Keys || pending.Keys == old(pending).Keys - {key}
      ensures var was := old(Contents(pending, repr));
        key in was && n <= |was[key]| && var rest := was[key][n..];
        Contents(pending, repr) == if rest == [] then was - {key} else was[key := rest]
    {
      hide Contents;
      ContentsShow(pending, repr);
      ghost var was, pending0 := Contents(pending, repr), pending;
      var buf := pending[key];
      Tail(buf, n);
      if n == buf.length {
        pending := pending - {key};
        Removed(pending0, repr, was, key);
      } else {
        var rest := View(buf.buffer, buf.offset + n, buf.length - n);
        pending := pending[key := rest];
        Replaced(pending0, repr, was, key, rest);
      }
    }

    /** The top of the flush loop: those who wait go on, if there is memory again; then the next write, or the end. */
    method Next()
      requires DataOk() && !isBroken && flight.None? && maxBufferSize > 0
      modifies this`pending, this`writerState, this`inFlight, this`flight, this`ongoing, this`continueAfterFlush,
        this`repr, repr
      ensures Valid() && !isBroken && pending.Keys == old(pending).Keys && fresh(repr - old(repr))
      ensures ongoing <==> old(pending) != map[]
      ensures continueAfterFlush ==
        if old(Total(Sizes(pending))) < maxBufferSize then [] else old(continueAfterFlush)
    {
      hide DataOk, Contents;
      var memory := GetMemory();
      if memory < maxBufferSize {
        continueAfterFlush := [];
      }
      if k :| k in pending {
        ongoing := true;
        StartWrite(k);
      } else {
        assert pending == map[];
        ZeroTotal(Sizes(pending));
        ongoing := false;
      }
    }

    /** A connection logs something; the flush is started if it does not run. */
    method Write(key: Key, bytes: View) returns (r: Outcome)
      requires Valid() && bytes.Fits() && bytes.buffer !in repr
      modifies this, repr
      ensures Valid() && isDisposed == old(isDisposed) && isBroken == old(isBroken) && sink == old(sink)
      ensures r.Thrown? <==> isDisposed
      ensures fresh(repr - old(repr))
      ensures logged ==
        if isDisposed || isBroken || bytes.length == 0 then old(logged)
        else old(logged)[key := old(Logged(logged, key)) + old(bytes.Bytes())]
      ensures !isDisposed && !isBroken && bytes.length > 0 ==> ongoing && key in pending
      ensures r.Waits? ==> ongoing && r.id in continueAfterFlush
    {
      hide DataOk, Contents, SentInPart, Total, Sizes;
      if isDisposed {
        return Thrown;
      }
      if isBroken || bytes.length == 0 {
        return Returned;
      }
      Append(key, bytes);
      assert key in pending;
      if !ongoing {
        Next();
      }
      r := Await();
    }

    /** With too much in memory the caller waits. */
    method Await() returns (r: Outcome)
      requires Valid() && ongoing
      modifies this`continueAfterFlush, this`lastId
      ensures Valid() && !r.Thrown? && (r.Waits? ==> r.id in continueAfterFlush)
      ensures r.Returned? <==> Total(Sizes(pending)) < maxBufferSize
    {
      hide DataOk;
      var memory := GetMemory();
      if memory < maxBufferSize {
        return Returned;
      }
      lastId := lastId + 1;
      continueAfterFlush := continueAfterFlush + [lastId];
      r := Waits(lastId);
    }

    /**
     The sink has done a write. The rest of the same connection comes next, then another connection of
     the same DSN, and then the top of the loop.
     */
    method Written()
      requires Valid() && ongoing
      modifies this, repr
      ensures Valid() && isBroken == old(isBroken) && isDisposed == old(isDisposed)
      ensures logged == old(logged) && fresh(repr - old(repr))
      ensures var f := old(flight).value; sink == old(sink) + [Chunk(f.key, f.banner, f.data)]
    {
      hide DataOk, Contents;
      var key := Land();
      if key in pending {
        StartWrite(key);
      } else if k :| k in pending && k.dsn == key.dsn {
        StartWrite(k);
      } else {
        Next();
      }
    }

    /** The sink has failed: nothing is written any more, and nobody waits for it. */
    method Failed()
      requires Valid() && ongoing
      modifies this`isBroken, this`ongoing, this`continueAfterFlush, this`inFlight, this`flight
      ensures Valid() && isBroken && !ongoing && continueAfterFlush == []
    {
      hide SentFor, NothingLost, Contents, SentInPart;
      NothingLostInPart(sink, Contents(pending, repr), flight, logged);
      isBroken, ongoing, continueAfterFlush := true, false, [];
      inFlight, flight := None, None;
    }

    method Dispose()
      requires Valid()
      modifies this`isDisposed
      ensures Valid() && isDisposed
    {
      hide DataOk;
      isDisposed := true;
    }

    lemma InPart()
      requires Valid()
      ensures SentInPart(sink, logged)
    {
      hide SentFor, SentInPart, NothingLost, Contents;
      if !isBroken {
        NothingLostInPart(sink, Contents(pending, repr), flight, logged);
      }
    }

    /**
     When the flush has stopped and the sink has not failed, each connection's log is in the sink, in order, and nobody
     waits.
     */
    lemma AllWritten(key: Key)
      requires Valid() && !ongoing && !isBroken
      ensures SentFor(sink, key) == Logged(logged, key) && continueAfterFlush == []
    {
      hide SentFor;
      assert SentFor(sink, key) + [] + [] == SentFor(sink, key);
    }
  }

  // ---- any interleaving of the connections and the sink

  /** One event; one that cannot happen in this state is passed over. */
  method Happen(w: SqlLogToWritable, e: Event)
    requires w.Valid()
    modifies w, w.repr
    ensures w.Valid() && fresh(w.repr - old(w.repr)) && w.isDisposed == (old(w.isDisposed) || e.Disposes?)
    ensures w.logged == LoggedNext(old(w.logged), old(w.isDisposed || w.isBroken), e)
    ensures w.isBroken == (old(w.isBroken) || (e.Fails? && old(w.ongoing)))
  {
    hide SqlLogToWritable.Valid, SqlLogToWritable.DataOk;
    match e {
      case Writes(key, bytes) =>
        var buffer := new byte[|bytes|](i requires 0 <= i < |bytes| => bytes[i]);
        assert buffer[0..|bytes|] == bytes;
        var _ := w.Write(key, View(buffer, 0, |bytes|));
      case Lands =>
        if w.ongoing { w.Written(); }
      case Fails =>
        if w.ongoing { w.Failed(); }
      case Disposes =>
        w.Dispose();
    }
  }

  ghost function LoggedNext(logged: map<Key, seq<byte>>, refused: bool, e: Event): map<Key, seq<byte>> {
    if e.Writes? && !refused && e.bytes != [] then logged[e.key := Logged(logged, e.key) + e.bytes] else logged
  }

  /** What is logged is what was told, up to a failure. */
  ghost predicate Logs(logged: map<Key, seq<byte>>, events: seq<Event>, broken: bool) {
    forall key :: Logged(logged, key) <= Told(events, key) && (!broken ==> Logged(logged, key) == Told(events, key))
  }

  lemma NothingTold()
    ensures Logs(map[], [], false)
  {
  }

  lemma LogsOn(logged: map<Key, seq<byte>>, events: seq<Event>, broken: bool, e: Event)
    requires Logs(logged, events, broken)
    ensures var logged' := LoggedNext(logged, Disposed(events) || broken, e);
      Logs(logged', events + [e], broken) && Logs(logged', events + [e], true)
    ensures Disposed(events + [e]) <==> Disposed(events) || e.Disposes?
  {
    var all := events + [e];
    assert Disposed(all) <==> Disposed(events) || e.Disposes? by {
      assert all[|events|] == e && forall k :: 0 <= k < |events| ==> all[k] == events[k];
    }
    var logged' := LoggedNext(logged, Disposed(events) || broken, e);
    forall key
      ensures Logged(logged', key) <= Told(all, key) && (!broken ==> Logged(logged', key) == Told(all, key))
    {
      ToldOn(events, e, key);
      hide Told, Disposed;
      assert Told(events, key) + [] == Told(events, key);
    }
  }

  lemma ToldOn(events: seq<Event>, e: Event, key: Key)
    ensures Told(events + [e], key) ==
      Told(events, key) + if e.Writes? && e.key == key && !Disposed(events) then e.bytes else []
  {
    assert (events + [e])[..|events|] == events;
  }

  /** A connection logs something, the sink has done a write, the sink fails, or the writer is disposed of. */
  datatype Event = Writes(key: Key, bytes: seq<byte>) | Lands | Fails | Disposes

  predicate Disposed(events: seq<Event>) {
    exists k :: 0 <= k < |events| && events[k].Disposes?
  }

  /** All that was logged for a connection before the disposal. */
  function Told(events: seq<Event>, key: Key): seq<byte> {
    if events == [] then []
    else
      var before, e := events[..|events| - 1], events[|events| - 1];
      Told(before, key) + if e.Writes? && e.key == key && !Disposed(before) then e.bytes else []
  }

  /**
   Any run: what was sent for each connection, without the banners, is at any time the beginning of what was logged for
   it, in order, also after a failure of the sink. When the flush has stopped with no failure it is all of it, and
   nobody waits.
   */
  method Run(maxBufferSize: nat, firstCapacity: nat, bannerOf: Key -> Option<seq<byte>>, events: seq<Event>)
    returns (w: SqlLogToWritable)
    requires maxBufferSize > 0
    ensures fresh(w) && w.Valid() && w.isDisposed == Disposed(events)
    ensures forall key :: SentFor(w.sink, key) <= Told(events, key)
    ensures !w.ongoing && !w.isBroken ==>
      w.continueAfterFlush == [] && forall key :: SentFor(w.sink, key) == Told(events, key)
    ensures (forall k :: 0 <= k < |events| ==> !events[k].Fails?) ==> !w.isBroken
  {
    hide SentFor, SentInPart, Told, Logs, SqlLogToWritable.Valid;
    w := new SqlLogToWritable(maxBufferSize, firstCapacity, bannerOf);
    NothingTold();
    for k := 0 to |events|
      invariant fresh(w) && fresh(w.repr) && w.Valid() && w.isDisposed == Disposed(events[..k])
      invariant Logs(w.logged, events[..k], w.isBroken)
      invariant (forall j :: 0 <= j < k ==> !events[j].Fails?) ==> !w.isBroken
    {
      LogsOn(w.logged, events[..k], w.isBroken, events[k]);
      assert events[..k] + [events[k]] == events[..k + 1];
      Happen(w, events[k]);
    }
    assert events[..|events|] == events;
    w.InPart();
    SentIsTold(w.sink, w.logged, events, w.isBroken);
    if !w.ongoing && !w.isBroken {
      w.AllWritten(Key(0, 0));
      forall key
        ensures SentFor(w.sink, key) == Told(events, key)
      {
        w.AllWritten(key);
        LoggedIsTold(w.logged, events, key);
      }
    }
  }

  lemma LoggedIsTold(logged: map<Key, seq<byte>>, events: seq<Event>, key: Key)
    requires Logs(logged, events, false)
    ensures Logged(logged, key) == Told(events, key)
  {
  }

  lemma SentIsTold(sink: seq<Chunk>, logged: map<Key, seq<byte>>, events: seq<Event>, broken: bool)
    requires SentInPart(sink, logged) && Logs(logged, events, broken)
    ensures forall key :: SentFor(sink, key) <= Told(events, key)
  {
    hide SentFor, Told, Logged;
    forall key
      ensures SentFor(sink, key) <= Told(events, key)
    {
      assert SentFor(sink, key) <= Logged(logged, key) <= Told(events, key);
    }
  }

  lemma RestIs(contents: map<Key, seq<byte>>, f: Flight)
    requires FlightOk(contents, Some(f))
    ensures f.key in contents && |f.banner + f.data| <= |contents[f.key]|
    ensures Rest(contents, Some(f), f.key) == contents[f.key][|f.banner + f.data|..]
  {
  }

  lemma Tail(v: View, n: nat)
    requires v.Fits() && n <= v.length
    ensures View(v.buffer, v.offset + n, v.length - n).Bytes() == v.Bytes()[n..]
  {
  }

  lemma Removed(pending: map<Key, View>, repr: set<array<byte>>, was: map<Key, seq<byte>>, key: Key)
    requires Separate(pending, repr) && was.Keys == pending.Keys
    requires forall k :: k in pending ==> pending[k].Bytes() == was[k]
    ensures Separate(pending - {key}, repr) && Contents(pending - {key}, repr) == was - {key}
  {
  }
}
