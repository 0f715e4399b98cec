/**
  Sending records over a stream socket that may take any part of what it is given. Memory is
  one sequence of bytes; an iovec names a piece of it.
  */
module Sender {

  type Byte = bv8
  datatype Iovec = Iovec(buf: nat, len: nat)

  const EVENT_ERROR: int := -1
  const MAX_IOVCNT: nat := 1024

  ghost predicate InMemory(mem: seq<Byte>, iov: seq<Iovec>)
  {
    forall k :: 0 <= k < |iov| ==> iov[k].buf + iov[k].len <= |mem|
  }

  function Piece(mem: seq<Byte>, v: Iovec): (p: seq<Byte>)
    requires v.buf + v.len <= |mem|
    ensures |p| == v.len
  {
    mem[v.buf..v.buf + v.len]
  }

  /** The bytes that a list of iovecs stands for. */
  function Gather(mem: seq<Byte>, iov: seq<Iovec>): seq<Byte>
    requires InMemory(mem, iov)
  {
    if iov == [] then [] else Piece(mem, iov[0]) + Gather(mem, iov[1..])
  }

  /** What the next socket call does: takes up to `k` bytes (at least one), or fails. */
  datatype Outcome = Takes(k: nat) | WouldBlock | Fails | Closed

  /** The peer receives `wire`. Once the script is used up the socket takes all it is given. */
  class Socket {
    var wire: seq<Byte>
    var script: seq<Outcome>

    constructor (s: seq<Outcome>)
      ensures wire == [] && script == s
    {
      wire, script := [], s;
    }

    /** One writev call on data `bytes`: the number of bytes taken, EVENT_ERROR with a retryable or
        another errno, or 0. */
    method Writev(bytes: seq<Byte>) returns (n: int, retry: bool)
      modifies this
      ensures |script| == if old(script) == [] then 0 else |old(script)| - 1
      ensures old(script) != [] ==> script == old(script)[1..]
      ensures n > 0 ==> n <= |bytes| && wire == old(wire) + bytes[..n]
      ensures n <= 0 ==> wire == old(wire) && (n == 0 || n == EVENT_ERROR)
      ensures retry ==> n == EVENT_ERROR && old(script) != []
      ensures bytes == [] ==> n == 0
      ensures bytes != [] && n <= 0 ==>
        && old(script) != []
        && (old(script)[0] == Fails <==> n == -1 && !retry) && (old(script)[0] == Closed <==> n == 0)
      ensures bytes != [] && old(script) != [] && n > 0 ==> old(script)[0].Takes?
      ensures bytes != [] && retry ==> old(script)[0] == WouldBlock
      ensures Healthy(old(script)) ==> Healthy(script) && (retry || n > 0 || bytes == [])
    {
      if bytes == [] {
        n, retry := 0, false;
        if script != [] { script := script[1..]; }
        return;
      }
      if script == [] {
        wire := wire + bytes;
        assert bytes[..|bytes|] == bytes;
        n, retry := |bytes|, false;
        return;
      }
      match script[0] {
        case Takes(k) =>
          n := if k == 0 then 1 else if k > |bytes| then |bytes| else k;
          retry := false;
          wire := wire + bytes[..n];
        case WouldBlock => n, retry := EVENT_ERROR, true;
        case Fails => n, retry := EVENT_ERROR, false;
        case Closed => n, retry := 0, false;
      }
      script := script[1..];
    }
  }

  /** Only short writes and retryable errors. */
  predicate Healthy(script: seq<Outcome>)
  {
    forall k :: 0 <= k < |script| ==> script[k].Takes? || script[k].WouldBlock?
  }

  /** Why a blocking send of `len` bytes ended: the first call that neither took bytes nor could be
      retried failed or found the connection closed; or there was no such call. */
  predicate EndedBy(before: seq<Outcome>, after: seq<Outcome>, len: nat, ret: int)
  {
    && |after| <= |before|
    && var used := |before| - |after|;
    && before[used..] == after
    && (len > 0 && ret == -1 ==> 0 < used && before[used - 1] == Fails && Healthy(before[..used - 1]))
    && (len > 0 && ret == 0 ==> 0 < used && before[used - 1] == Closed && Healthy(before[..used - 1]))
    && (len > 0 && ret == len ==> Healthy(before[..used]))
  }

  /** The calls so far took bytes or are to be retried. */
  predicate GoesOn(before: seq<Outcome>, after: seq<Outcome>)
  {
    |after| <= |before| && before[|before| - |after|..] == after && Healthy(before[..|before| - |after|])
  }

  lemma OneMoreCall(before: seq<Outcome>, now: seq<Outcome>, after: seq<Outcome>, len: nat)
    requires GoesOn(before, now) && 0 < len
    requires if now == [] then after == [] else after == now[1..]
    ensures now == [] || now[0].Takes? || now[0].WouldBlock? ==>
      GoesOn(before, after) && EndedBy(before, after, len, len)
    ensures now != [] && now[0] == Fails ==> EndedBy(before, after, len, -1)
    ensures now != [] && now[0] == Closed ==> EndedBy(before, after, len, 0)
  {
    var used := |before| - |now|;
    if now != [] {
      assert now[0] == before[used];
      assert before[..used + 1] == before[..used] + [now[0]];
      assert before[used + 1..] == after;
    }
  }

  /** How many calls fail for good. */
  function Faults(script: seq<Outcome>): nat
  {
    if script == [] then 0
    else (if script[0].Fails? || script[0].Closed? then 1 else 0) + Faults(script[1..])
  }

  lemma {:induction false} HealthyNoFaults(script: seq<Outcome>)
    ensures Healthy(script) <==> Faults(script) == 0
  {
    if script != [] {
      HealthyNoFaults(script[1..]);
      assert script == [script[0]] + script[1..];
    }
  }

  /** A send that ends early has met one fault, any other none. */
  lemma {:induction false} EndedFaults(before: seq<Outcome>, after: seq<Outcome>, len: nat, ret: int)
    requires 0 < len && EndedBy(before, after, len, ret) && (ret == len || ret == -1 || ret == 0)
    ensures Faults(before) == Faults(after) + if ret == len then 0 else 1
    decreases |before|
  {
    var used := |before| - |after|;
    if used == 0 {
      assert before[0..] == before;
    } else if used == 1 && ret != len {
      assert before[1..] == after;
    } else {
      var rest := before[1..];
      assert rest[used - 1..] == after;
      assert ret == len ==> rest[..used - 1] == before[..used][1..];
      assert ret != len ==> rest[..used - 2] == before[..used - 1][1..];
      EndedFaults(rest, after, len, ret);
      assert ret == len ==> before[0] == before[..used][0];
      assert ret != len ==> before[0] == before[..used - 1][0];
    }
  }

  /** A beginning of `unit` went out, all of it unless a call failed. */
  ghost predicate SentPart(unit: seq<Byte>, wire: seq<Byte>, wire': seq<Byte>, script: seq<Outcome>, script': seq<Outcome>)
  {
    && wire <= wire'
    && var part := wire'[|wire|..];
    && part <= unit
    && Faults(script) == Faults(script') + if part == unit then 0 else 1
  }

  lemma PartSent(unit: seq<Byte>, total: nat, wire: seq<Byte>, wire': seq<Byte>,
                 script: seq<Outcome>, script': seq<Outcome>, ret: int)
    requires OutSoFar(unit, total, wire, wire') && EndedBy(script, script', |unit|, ret)
    requires (ret == |unit| || ret == -1 || ret == 0) && (ret == |unit| <==> total == |unit|)
    ensures 0 < |unit| ==> SentPart(unit, wire, wire', script, script')
    ensures wire <= wire' && wire' + Rest(unit, total) == wire + unit
    ensures ret == |unit| ==> wire' == wire + unit
  {
    if 0 < |unit| {
      EndedFaults(script, script', |unit|, ret);
    }
    OutFacts(unit, total, wire, wire');
    hide Faults, EndedBy;
    assert wire'[|wire|..] == unit[..total];
    assert total == |unit| ==> unit[..total] == unit;
  }

  lemma NothingToSend(before: seq<Outcome>, now: seq<Outcome>, after: seq<Outcome>)
    requires GoesOn(before, now)
    requires if now == [] then after == [] else after == now[1..]
    ensures EndedBy(before, after, 0, 0)
  {
    assert now != [] ==> before[|before| - |after|..] == now[1..];
  }

  lemma GatherCons(mem: seq<Byte>, v: Iovec, rest: seq<Iovec>)
    requires v.buf + v.len <= |mem| && InMemory(mem, rest)
    ensures InMemory(mem, [v] + rest)
    ensures Gather(mem, [v] + rest) == Piece(mem, v) + Gather(mem, rest)
  {
    assert ([v] + rest)[1..] == rest;
    hide Piece;
  }

  lemma PieceDrop(mem: seq<Byte>, v: Iovec, n: nat)
    requires v.buf + v.len <= |mem| && n <= v.len
    ensures Piece(mem, v)[n..] == Piece(mem, Iovec(v.buf + n, v.len - n))
  {
  }

  lemma DropFirst(a: seq<Byte>, b: seq<Byte>, n: nat)
    requires |a| <= n <= |a| + |b|
    ensures (a + b)[n..] == b[n - |a|..]
  {
  }

  lemma CutFirst(a: seq<Byte>, b: seq<Byte>, n: nat)
    requires n <= |a|
    ensures (a + b)[n..] == a[n..] + b
  {
  }

  lemma GatherSkip(mem: seq<Byte>, v: Iovec, rest: seq<Iovec>, n: nat)
    requires v.buf + v.len <= |mem| && InMemory(mem, rest) && v.len <= n <= v.len + |Gather(mem, rest)|
    ensures InMemory(mem, [v] + rest) && |Gather(mem, [v] + rest)| == v.len + |Gather(mem, rest)|
    ensures Gather(mem, [v] + rest)[n..] == Gather(mem, rest)[n - v.len..]
  {
    GatherCons(mem, v, rest);
    hide Gather, InMemory, Piece;
    DropFirst(Piece(mem, v), Gather(mem, rest), n);
  }

  lemma GatherCut(mem: seq<Byte>, v: Iovec, rest: seq<Iovec>, n: nat)
    requires v.buf + v.len <= |mem| && InMemory(mem, rest) && n <= v.len
    ensures InMemory(mem, [v] + rest) && |Gather(mem, [v] + rest)| == v.len + |Gather(mem, rest)|
    ensures var cut := [Iovec(v.buf + n, v.len - n)] + rest;
      InMemory(mem, cut) && Gather(mem, cut) == Gather(mem, [v] + rest)[n..]
  {
    GatherCons(mem, v, rest);
    GatherCons(mem, Iovec(v.buf + n, v.len - n), rest);
    PieceDrop(mem, v, n);
    hide Gather, InMemory, Piece;
    CutFirst(Piece(mem, v), Gather(mem, rest), n);
  }

  lemma Uncons(mem: seq<Byte>, iov: seq<Iovec>)
    requires iov != [] && InMemory(mem, iov)
    ensures iov == [iov[0]] + iov[1..] && iov[0].buf + iov[0].len <= |mem| && InMemory(mem, iov[1..])
    ensures |Gather(mem, iov)| == iov[0].len + |Gather(mem, iov[1..])|
  {
  }

  /** Which iovec the first unsent byte is in, and how many bytes of it are sent. */
  method FindUnsent(mem: seq<Byte>, iov: seq<Iovec>, n: nat) returns (k: nat, remain: nat)
    requires InMemory(mem, iov) && n < |Gather(mem, iov)|
    ensures k < |iov| && remain < iov[k].len && InMemory(mem, iov[k..])
    ensures remain < |Gather(mem, iov[k..])| && Gather(mem, iov[k..])[remain..] == Gather(mem, iov)[n..]
  {
    k, remain := 0, n;
    assert Gather(mem, []) == [];
    hide InMemory, Gather;
    assert iov[0..] == iov && iov[|iov|..] == [];
    while k < |iov| && iov[k].len <= remain
      invariant k <= |iov| && InMemory(mem, iov[k..])
      invariant remain < |Gather(mem, iov[k..])| && Gather(mem, iov[k..])[remain..] == Gather(mem, iov)[n..]
    {
      assert iov[k..][0] == iov[k] && iov[k..][1..] == iov[k + 1..];
      Uncons(mem, iov[k..]);
      GatherSkip(mem, iov[k], iov[k + 1..], remain);
      remain := remain - iov[k].len;
      k := k + 1;
    }
  }

  /** Moves past `n` sent bytes: whole iovecs are skipped, a partly sent one is cut in place. */
  method Advance(mem: seq<Byte>, iov: array<Iovec>, at: nat, end: nat, n: nat) returns (next: nat)
    requires at <= end <= iov.Length && InMemory(mem, iov[at..end]) && n < |Gather(mem, iov[at..end])|
    modifies iov
    ensures at <= next < end && InMemory(mem, iov[next..end])
    ensures Gather(mem, iov[next..end]) == old(Gather(mem, iov[at..end]))[n..]
    ensures iov[..at] == old(iov[..at]) && iov[end..] == old(iov[end..])
  {
    hide InMemory, Gather;
    ghost var all := iov[..];
    assert iov[at..end] == all[at..end];
    var k, remain := FindUnsent(mem, iov[at..end], n);
    next := at + k;
    ghost var v, later := all[next], all[next + 1..end];
    CutInPlace(all, at, end, k, v);
    Uncons(mem, [v] + later);
    GatherCut(mem, v, later, remain);
    iov[next] := Iovec(iov[next].buf + remain, iov[next].len - remain);
    assert iov[..] == all[next := iov[next]];
    CutInPlace(all, at, end, k, iov[next]);
    assert iov[next..end] == iov[..][next..end] && iov[..at] == iov[..][..at] && iov[end..] == iov[..][end..];
  }

  /** Changing one entry between `at` and `end`. */
  lemma CutInPlace(all: seq<Iovec>, at: nat, end: nat, k: nat, v: Iovec)
    requires at + k < end <= |all|
    ensures var cut := all[at + k := v];
      cut[at + k..end] == [v] + all[at + k + 1..end] && cut[..at] == all[..at] && cut[end..] == all[end..]
    ensures all[at..end][k..] == [all[at + k]] + all[at + k + 1..end]
    ensures ([v] + all[at + k + 1..end])[1..] == all[at + k + 1..end]
  {
  }

  /** The first `total` of the bytes `all` are on the wire. */
  ghost predicate OutSoFar(all: seq<Byte>, total: nat, wire: seq<Byte>, wire': seq<Byte>)
  {
    total <= |all| && wire' == wire + all[..total]
  }

  function Rest(all: seq<Byte>, total: nat): (rest: seq<Byte>)
    requires total <= |all|
    ensures |rest| == |all| - total
  {
    all[total..]
  }

  lemma NothingCalled(script: seq<Outcome>)
    ensures GoesOn(script, script) && EndedBy(script, script, 0, 0)
  {
  }

  lemma BytesLeft(mem: seq<Byte>, iov: seq<Iovec>)
    requires InMemory(mem, iov)
    ensures 0 < |Gather(mem, iov)| ==> 0 < |iov|
  {
  }

  lemma NothingOut(all: seq<Byte>, wire: seq<Byte>)
    ensures OutSoFar(all, 0, wire, wire) && Rest(all, 0) == all
  {
    assert wire + all[..0] == wire;
  }

  lemma MoreOut(all: seq<Byte>, total: nat, n: nat, wire: seq<Byte>, now: seq<Byte>, wire': seq<Byte>)
    requires OutSoFar(all, total, wire, now) && n <= |all| - total && wire' == now + Rest(all, total)[..n]
    ensures OutSoFar(all, total + n, wire, wire') && Rest(all, total)[n..] == Rest(all, total + n)
  {
    assert all[..total] + all[total..][..n] == all[..total + n];
  }

  lemma OutFacts(all: seq<Byte>, total: nat, wire: seq<Byte>, wire': seq<Byte>)
    requires OutSoFar(all, total, wire, wire')
    ensures wire <= wire' && wire' + Rest(all, total) == wire + all
    ensures total == |all| ==> wire' == wire + all
  {
    assert all[..total] + all[total..] == all;
  }

  /** One call for the bytes of `all` that are not out yet. */
  method Attempt(sock: Socket, bytes: seq<Byte>, ghost all: seq<Byte>, ghost total: nat,
                 ghost wire: seq<Byte>, ghost script: seq<Outcome>)
    returns (n: int, retry: bool)
    requires total <= |all| && bytes == Rest(all, total)
    requires OutSoFar(all, total, wire, sock.wire) && GoesOn(script, sock.script) && (total < |all| || all == [])
    modifies sock
    ensures |sock.script| == if old(sock.script) == [] then 0 else |old(sock.script)| - 1
    ensures n > 0 || n == 0 || n == EVENT_ERROR
    ensures retry ==> n == EVENT_ERROR && old(sock.script) != []
    ensures all == [] ==> n == 0
    ensures n > 0 ==> total + n <= |all| && Rest(all, total)[n..] == Rest(all, total + n)
    ensures OutSoFar(all, if n > 0 then total + n else total, wire, sock.wire)
    ensures n > 0 || retry ==> GoesOn(script, sock.script)
    ensures n > 0 && total + n == |all| ==> EndedBy(script, sock.script, |all|, |all|)
    ensures n <= 0 && !retry ==> EndedBy(script, sock.script, |all|, n)
    ensures Healthy(script) && Healthy(old(sock.script)) ==> Healthy(sock.script) && (retry || n > 0 || all == [])
  {
    ghost var now, out := sock.script, sock.wire;
    n, retry := sock.Writev(bytes);
    hide Healthy, GoesOn, EndedBy, Rest, OutSoFar;
    if all == [] {
      NothingToSend(script, now, sock.script);
    } else {
      OneMoreCall(script, now, sock.script, |all|);
    }
    if n > 0 {
      MoreOut(all, total, n, wire, out, sock.wire);
    }
  }

  /** Sends everything the iovecs stand for, whatever pieces the socket takes it in. On an early
      return a proper prefix is out, and the iovecs left are exactly the unsent rest. */
  method BlockWritev(sock: Socket, mem: seq<Byte>, iov: array<Iovec>, at: nat, end: nat, len: nat)
    returns (ret: int, offset: nat)
    requires at <= end <= iov.Length && InMemory(mem, iov[at..end]) && len == |Gather(mem, iov[at..end])|
    modifies sock, iov
    ensures ret == len || ret == EVENT_ERROR || ret == 0
    ensures ret == len ==> sock.wire == old(sock.wire) + old(Gather(mem, iov[at..end]))
    ensures ret != len ==>
      && at <= offset < end && InMemory(mem, iov[offset..end])
      && old(sock.wire) <= sock.wire
      && sock.wire + Gather(mem, iov[offset..end]) == old(sock.wire) + old(Gather(mem, iov[at..end]))
      && Gather(mem, iov[offset..end]) != []
    ensures Healthy(old(sock.script)) ==> ret == len && Healthy(sock.script)
    ensures EndedBy(old(sock.script), sock.script, len, ret)
    ensures 0 < len ==>
      SentPart(old(Gather(mem, iov[at..end])), old(sock.wire), sock.wire, old(sock.script), sock.script)
    ensures iov[..at] == old(iov[..at]) && iov[end..] == old(iov[end..])
  {
    hide InMemory, Gather, Healthy, GoesOn, EndedBy, SentPart, OutSoFar, Rest;
    ghost var all := Gather(mem, iov[at..end]);
    var total: nat := 0;
    NothingOut(all, sock.wire);
    NothingCalled(sock.script);
    offset := at;
    while true
      invariant at <= offset <= end && InMemory(mem, iov[offset..end])
      invariant 0 <= total <= len && (total < len || len == 0)
      invariant OutSoFar(all, total, old(sock.wire), sock.wire)
      invariant Gather(mem, iov[offset..end]) == Rest(all, total)
      invariant Healthy(old(sock.script)) ==> Healthy(sock.script)
      invariant GoesOn(old(sock.script), sock.script)
      invariant iov[..at] == old(iov[..at]) && iov[end..] == old(iov[end..])
      decreases |sock.script|, len - total
    {
      BytesLeft(mem, iov[offset..end]);
      var n, retry := Attempt(sock, Gather(mem, iov[offset..end]), all, total, old(sock.wire), old(sock.script));
      if n > 0 {
        total := total + n;
      } else if n == EVENT_ERROR {
        if retry {
          continue;
        } else {
          PartSent(all, total, old(sock.wire), sock.wire, old(sock.script), sock.script, -1);
          return EVENT_ERROR, offset;
        }
      } else {
        PartSent(all, total, old(sock.wire), sock.wire, old(sock.script), sock.script, 0);
        return 0, offset;
      }
      if total == len {
        PartSent(all, total, old(sock.wire), sock.wire, old(sock.script), sock.script, len);
        break;
      }
      offset := Advance(mem, iov, offset, end, n);
    }
    return len, offset;
  }

  /** The library call for one contiguous buffer: retries until all bytes are out or a call fails. */
  method BlockWrite(sock: Socket, bytes: seq<Byte>) returns (ret: int)
    modifies sock
    ensures ret == |bytes| || ret == EVENT_ERROR || ret == 0
    ensures ret == |bytes| ==> sock.wire == old(sock.wire) + bytes
    ensures ret != |bytes| ==> exists k :: 0 <= k < |bytes| && sock.wire == old(sock.wire) + bytes[..k]
    ensures Healthy(old(sock.script)) ==> ret == |bytes| && Healthy(sock.script)
    ensures EndedBy(old(sock.script), sock.script, |bytes|, ret)
    ensures SentPart(bytes, old(sock.wire), sock.wire, old(sock.script), sock.script)
  {
    NothingCalled(sock.script);
    assert bytes == [] ==> SentPart(bytes, sock.wire, sock.wire, sock.script, sock.script);
    NothingOut(bytes, sock.wire);
    hide Healthy, GoesOn, EndedBy, SentPart;
    var total: nat := 0;
    while total < |bytes|
      invariant total <= |bytes| && OutSoFar(bytes, total, old(sock.wire), sock.wire)
      invariant Healthy(old(sock.script)) ==> Healthy(sock.script)
      invariant total < |bytes| ==> GoesOn(old(sock.script), sock.script)
      invariant total == |bytes| ==> EndedBy(old(sock.script), sock.script, |bytes|, |bytes|)
      invariant bytes == [] ==> SentPart(bytes, old(sock.wire), sock.wire, old(sock.script), sock.script)
      decreases |sock.script|, |bytes| - total
    {
      var n, retry := Attempt(sock, bytes[total..], bytes, total, old(sock.wire), old(sock.script));
      if n > 0 {
        total := total + n;
      } else if n == EVENT_ERROR {
        if !retry {
          PartSent(bytes, total, old(sock.wire), sock.wire, old(sock.script), sock.script, -1);
          return EVENT_ERROR;
        }
      } else {
        PartSent(bytes, total, old(sock.wire), sock.wire, old(sock.script), sock.script, 0);
        return 0;
      }
    }
    PartSent(bytes, total, old(sock.wire), sock.wire, old(sock.script), sock.script, |bytes|);
    return |bytes|;
  }

  // ---- a stream in units, some of them cut short

  function Flatten(units: seq<seq<Byte>>): seq<Byte>
  {
    if units == [] then [] else units[0] + Flatten(units[1..])
  }

  /** How many units are not whole. */
  function Cut(units: seq<seq<Byte>>, got: seq<seq<Byte>>): nat
    requires |got| == |units|
  {
    if units == [] then 0 else (if got[0] == units[0] then 0 else 1) + Cut(units[1..], got[1..])
  }

  ghost predicate Parts(units: seq<seq<Byte>>, got: seq<seq<Byte>>)
  {
    |got| == |units| && forall i :: 0 <= i < |units| ==> got[i] <= units[i]
  }

  /** What went out is a beginning of each unit, one after the other, and as many of them are cut short
      as calls failed for good. */
  ghost predicate Delivered(units: seq<seq<Byte>>, wire: seq<Byte>, wire': seq<Byte>,
                            script: seq<Outcome>, script': seq<Outcome>)
  {
    exists got :: Parts(units, got) && wire' == wire + Flatten(got) && Faults(script) == Faults(script') + Cut(units, got)
  }

  lemma {:induction false} FlattenAppend(units: seq<seq<Byte>>, x: seq<Byte>)
    ensures Flatten(units + [x]) == Flatten(units) + x
  {
    if units == [] {
      assert [x][1..] == [] && [] + [x] == [x];
    } else {
      assert (units + [x])[1..] == units[1..] + [x];
      FlattenAppend(units[1..], x);
    }
  }

  lemma {:induction false} CutAppend(units: seq<seq<Byte>>, got: seq<seq<Byte>>, u: seq<Byte>, g: seq<Byte>)
    requires |got| == |units|
    ensures Cut(units + [u], got + [g]) == Cut(units, got) + if g == u then 0 else 1
  {
    if units == [] {
      assert [u][1..] == [] && [g][1..] == [] && [] + [u] == [u] && [] + [g] == [g];
    } else {
      assert (units + [u])[1..] == units[1..] + [u] && (got + [g])[1..] == got[1..] + [g];
      CutAppend(units[1..], got[1..], u, g);
    }
  }

  lemma NothingDelivered(wire: seq<Byte>, script: seq<Outcome>)
    ensures Delivered([], wire, wire, script, script)
  {
    assert Parts([], []) && wire + Flatten([]) == wire;
  }

  lemma OneMoreUnit(units: seq<seq<Byte>>, u: seq<Byte>, wire: seq<Byte>, now: seq<Byte>, wire': seq<Byte>,
                    script: seq<Outcome>, mid: seq<Outcome>, script': seq<Outcome>)
    requires Delivered(units, wire, now, script, mid) && SentPart(u, now, wire', mid, script')
    ensures Delivered(units + [u], wire, wire', script, script')
  {
    hide Faults, Flatten, Cut;
    var got :| Parts(units, got) && now == wire + Flatten(got) && Faults(script) == Faults(mid) + Cut(units, got);
    var g := wire'[|now|..];
    FlattenAppend(got, g);
    CutAppend(units, got, u, g);
    assert Parts(units + [u], got + [g]);
    assert wire' == now + g;
  }

  lemma {:induction false} WholeUnits(units: seq<seq<Byte>>, got: seq<seq<Byte>>)
    requires |got| == |units| && Cut(units, got) == 0
    ensures got == units
  {
    if units != [] {
      WholeUnits(units[1..], got[1..]);
      assert got == [got[0]] + got[1..] && units == [units[0]] + units[1..];
    }
  }

  /** On a healthy socket every unit goes out whole. */
  lemma HealthyDelivers(units: seq<seq<Byte>>, wire: seq<Byte>, wire': seq<Byte>,
                        script: seq<Outcome>, script': seq<Outcome>)
    requires Delivered(units, wire, wire', script, script') && Healthy(script)
    ensures wire' == wire + Flatten(units)
  {
    HealthyNoFaults(script);
    hide Faults, Flatten, Cut;
    var got :| Parts(units, got) && wire' == wire + Flatten(got) && Faults(script) == Faults(script') + Cut(units, got);
    WholeUnits(units, got);
  }

  /** `bytes` in pieces of `size`, the last one possibly shorter. */
  function Chunks(bytes: seq<Byte>, size: nat): seq<seq<Byte>>
    requires 0 < size
  {
    if bytes == [] then []
    else if |bytes| <= size then [bytes]
    else [bytes[..size]] + Chunks(bytes[size..], size)
  }

  lemma {:induction false} ChunksFlatten(bytes: seq<Byte>, size: nat)
    requires 0 < size
    ensures Flatten(Chunks(bytes, size)) == bytes
  {
    if |bytes| > size {
      ChunksFlatten(bytes[size..], size);
      assert Chunks(bytes, size)[1..] == Chunks(bytes[size..], size);
      assert bytes == bytes[..size] + bytes[size..];
    } else if bytes != [] {
      assert [bytes][1..] == [];
    }
  }

  /** Piece number `i` starts at byte `i * size`. */
  lemma {:induction false} ChunkAt(bytes: seq<Byte>, size: nat, i: nat)
    requires 0 < size && i < |Chunks(bytes, size)|
    ensures var at := Times(i, size);
      && at < |bytes|
      && Chunks(bytes, size)[i] == bytes[at..if at + size <= |bytes| then at + size else |bytes|]
    decreases i
  {
    hide Times;
    TimesStep(0, size);
    if i > 0 {
      ChunkAt(bytes[size..], size, i - 1);
      TimesStep(i - 1, size);
      var at := Times(i - 1, size);
      SliceOfRest(bytes, size, at, if at + size <= |bytes| - size then at + size else |bytes| - size);
    }
  }

  lemma SliceOfRest(bytes: seq<Byte>, n: nat, i: nat, j: nat)
    requires i <= j && n + j <= |bytes|
    ensures bytes[n..][i..j] == bytes[n + i..n + j]
  {
  }

  /** A piece more after `i` full ones. */
  lemma {:induction false} ChunksAppend(a: seq<Byte>, b: seq<Byte>, size: nat, i: nat)
    requires 0 < size && |a| == Times(i, size) && 0 < |b| <= size
    ensures Chunks(a + b, size) == Chunks(a, size) + [b]
    decreases i
  {
    if i == 0 {
      assert a + b == b;
    } else {
      TimesStep(i - 1, size);
      hide Times;
      assert (a + b)[size..] == a[size..] + b && (a + b)[..size] == a[..size];
      ChunksAppend(a[size..], b, size, i - 1);
      if |a| == size {
        assert a[..size] == a && a[size..] == [];
      }
    }
  }

  /** Each call that fails for good costs at most one unit. */
  lemma LossBound(bytes: seq<Byte>, size: nat, wire: seq<Byte>, wire': seq<Byte>,
                  script: seq<Outcome>, script': seq<Outcome>)
    requires 0 < size && Delivered(Chunks(bytes, size), wire, wire', script, script')
    ensures |wire| + |bytes| <= |wire'| + Times(Faults(script) - Faults(script'), size)
  {
    hide Faults, Flatten, Cut, Chunks, Times;
    var units := Chunks(bytes, size);
    ChunksFlatten(bytes, size);
    ChunksSmall(bytes, size);
    var got :| Parts(units, got) && wire' == wire + Flatten(got) && Faults(script) == Faults(script') + Cut(units, got);
    CutLoses(units, got, size);
  }

  lemma {:induction false} ChunksSmall(bytes: seq<Byte>, size: nat)
    requires 0 < size
    ensures forall u <- Chunks(bytes, size) :: 0 < |u| <= size
  {
    if |bytes| > size {
      ChunksSmall(bytes[size..], size);
    }
  }

  lemma {:induction false} CutLoses(units: seq<seq<Byte>>, got: seq<seq<Byte>>, size: nat)
    requires Parts(units, got) && forall u <- units :: |u| <= size
    ensures |Flatten(units)| <= |Flatten(got)| + Times(Cut(units, got), size)
  {
    if units != [] {
      assert got[0] <= units[0] && |units[0]| <= size;
      CutLoses(units[1..], got[1..], size);
      TimesStep(Cut(units[1..], got[1..]), size);
    }
  }

  function Times(i: nat, size: nat): nat
  {
    i * size
  }

  lemma TimesStep(i: nat, size: nat)
    ensures Times(i + 1, size) == Times(i, size) + size
    ensures Times(0, size) == 0
  {
  }

  // ---- the five ways to send n records

  const DATA_SIZE: nat := 320

  /** The records at addresses `ptrs`. */
  function Records(ptrs: seq<nat>): (iov: seq<Iovec>)
    ensures |iov| == |ptrs|
    ensures forall k :: 0 <= k < |ptrs| ==> iov[k] == Iovec(ptrs[k], DATA_SIZE)
  {
    seq(|ptrs|, k requires 0 <= k < |ptrs| => Iovec(ptrs[k], DATA_SIZE))
  }

  lemma {:induction false} GatherConcat(mem: seq<Byte>, a: seq<Iovec>, b: seq<Iovec>)
    requires InMemory(mem, a) && InMemory(mem, b)
    ensures InMemory(mem, a + b) && Gather(mem, a + b) == Gather(mem, a) + Gather(mem, b)
  {
    if a == [] {
      assert a + b == b;
    } else {
      assert a[0].buf + a[0].len <= |mem| && InMemory(mem, a[1..]);
      hide InMemory, Gather, Piece;
      GatherConcat(mem, a[1..], b);
      GatherCons(mem, a[0], a[1..]);
      GatherCons(mem, a[0], a[1..] + b);
      assert a == [a[0]] + a[1..] && a + b == [a[0]] + (a[1..] + b);
      SeqAssoc(Piece(mem, a[0]), Gather(mem, a[1..]), Gather(mem, b));
    }
  }

  lemma SeqAssoc<T>(a: seq<T>, b: seq<T>, c: seq<T>)
    ensures a + b + c == a + (b + c)
  {
  }

  /** One more iovec at the end of a prefix. */
  lemma GatherPrefix(mem: seq<Byte>, iov: seq<Iovec>, k: nat)
    requires k < |iov| && InMemory(mem, iov)
    ensures InMemory(mem, iov[..k]) && InMemory(mem, iov[..k + 1])
    ensures Gather(mem, iov[..k + 1]) == Gather(mem, iov[..k]) + mem[iov[k].buf..iov[k].buf + iov[k].len]
  {
    assert iov[..k + 1] == iov[..k] + [iov[k]];
    GatherConcat(mem, iov[..k], [iov[k]]);
    assert Gather(mem, [iov[k]]) == mem[iov[k].buf..iov[k].buf + iov[k].len] + Gather(mem, [iov[k]][1..]);
  }

  /** Splitting a list of iovecs. */
  lemma GatherSplit(mem: seq<Byte>, iov: seq<Iovec>, k: nat, m: nat)
    requires k <= m <= |iov| && InMemory(mem, iov)
    ensures InMemory(mem, iov[..k]) && InMemory(mem, iov[k..m]) && InMemory(mem, iov[..m])
    ensures Gather(mem, iov[..m]) == Gather(mem, iov[..k]) + Gather(mem, iov[k..m])
  {
    assert iov[..m] == iov[..k] + iov[k..m];
    GatherConcat(mem, iov[..k], iov[k..m]);
  }

  /** One write call per record: a failed one costs the rest of its record. */
  method MethodWrite(sock: Socket, mem: seq<Byte>, ptrs: seq<nat>)
    requires InMemory(mem, Records(ptrs))
    modifies sock
    ensures Delivered(Chunks(Gather(mem, Records(ptrs)), 320), old(sock.wire), sock.wire, old(sock.script), sock.script)
    ensures Healthy(old(sock.script)) ==> sock.wire == old(sock.wire) + Gather(mem, Records(ptrs))
  {
    hide InMemory, Healthy, Gather, Delivered, SentPart, Chunks, EndedBy;
    ghost var iov := Records(ptrs);
    var i := 0;
    NothingYet(mem, iov, DATA_SIZE, sock.wire, sock.script);
    while i < |ptrs|
      invariant 0 <= i <= |ptrs| && InMemory(mem, iov[..i])
      invariant Delivered(Chunks(Gather(mem, iov[..i]), DATA_SIZE),
                          old(sock.wire), sock.wire, old(sock.script), sock.script)
    {
      RecordBytes(mem, ptrs, i);
      ghost var now, mid := sock.wire, sock.script;
      var _ := BlockWrite(sock, mem[ptrs[i]..ptrs[i] + DATA_SIZE]);
      NextBatch(mem, iov, i, i, i + 1, DATA_SIZE, old(sock.wire), now, sock.wire, old(sock.script), mid, sock.script);
      i := i + 1;
    }
    assert iov[..i] == iov;
    AllOnHealthy(Gather(mem, iov), DATA_SIZE, old(sock.wire), sock.wire, old(sock.script), sock.script);
  }

  lemma RecordBytes(mem: seq<Byte>, ptrs: seq<nat>, i: nat)
    requires InMemory(mem, Records(ptrs)) && i < |ptrs|
    ensures var iov := Records(ptrs);
      && ptrs[i] + DATA_SIZE <= |mem|
      && InMemory(mem, iov[..i]) && |Gather(mem, iov[..i])| == Times(i, DATA_SIZE)
      && InMemory(mem, iov[i..i + 1]) && Gather(mem, iov[i..i + 1]) == mem[ptrs[i]..ptrs[i] + DATA_SIZE]
  {
    var iov := Records(ptrs);
    EqualLengths(mem, iov[..i], DATA_SIZE);
    assert iov[i..i + 1] == [iov[i]] && [iov[i]][1..] == [];
    assert Gather(mem, [iov[i]]) == Piece(mem, iov[i]) + Gather(mem, [iov[i]][1..]);
  }

  lemma NothingYet(mem: seq<Byte>, iov: seq<Iovec>, size: nat, wire: seq<Byte>, script: seq<Outcome>)
    requires 0 < size
    ensures InMemory(mem, iov[..0]) && Delivered(Chunks(Gather(mem, iov[..0]), size), wire, wire, script, script)
  {
    NothingDelivered(wire, script);
    hide Delivered;
  }

  lemma ChunksOfNone(size: nat)
    requires 0 < size
    ensures Chunks([], size) == []
  {
  }

  lemma AllOnHealthy(bytes: seq<Byte>, size: nat, wire: seq<Byte>, wire': seq<Byte>,
                     script: seq<Outcome>, script': seq<Outcome>)
    requires 0 < size && Delivered(Chunks(bytes, size), wire, wire', script, script')
    ensures Healthy(script) ==> wire' == wire + bytes
  {
    hide Delivered, Healthy;
    if Healthy(script) {
      HealthyDelivers(Chunks(bytes, size), wire, wire', script, script');
      ChunksFlatten(bytes, size);
    }
  }

  /** Copies the records into one buffer. */
  method Assemble(mem: seq<Byte>, ptrs: seq<nat>) returns (datas: seq<Byte>)
    requires InMemory(mem, Records(ptrs))
    ensures datas == Gather(mem, Records(ptrs))
  {
    ghost var iov := Records(ptrs);
    datas := [];
    var i := 0;
    assert iov[..0] == [];
    while i < |ptrs|
      invariant 0 <= i <= |ptrs| && InMemory(mem, iov[..i]) && datas == Gather(mem, iov[..i])
    {
      GatherPrefix(mem, iov, i);
      datas := datas + mem[ptrs[i]..ptrs[i] + DATA_SIZE];
      i := i + 1;
    }
    assert iov[..i] == iov;
  }

  /** One write call for everything: if it fails, nothing follows. */
  method MethodBigWrite(sock: Socket, mem: seq<Byte>, ptrs: seq<nat>)
    requires InMemory(mem, Records(ptrs))
    modifies sock
    ensures Delivered([Gather(mem, Records(ptrs))], old(sock.wire), sock.wire, old(sock.script), sock.script)
    ensures Healthy(old(sock.script)) ==> sock.wire == old(sock.wire) + Gather(mem, Records(ptrs))
  {
    var datas := Assemble(mem, ptrs);
    NothingDelivered(sock.wire, sock.script);
    hide Gather, Healthy, Delivered, SentPart;
    var _ := BlockWrite(sock, datas);
    OneMoreUnit([], datas, old(sock.wire), old(sock.wire), sock.wire, old(sock.script), old(sock.script), sock.script);
    assert [] + [datas] == [datas];
  }

  /** Everything in one buffer, written in slices of one segment: a failed write costs the rest of its
      segment. */
  method MethodAssembleWrite(sock: Socket, mem: seq<Byte>, ptrs: seq<nat>, mss: nat)
    requires InMemory(mem, Records(ptrs)) && 0 < mss
    modifies sock
    ensures Delivered(Chunks(Gather(mem, Records(ptrs)), mss), old(sock.wire), sock.wire, old(sock.script), sock.script)
    ensures Healthy(old(sock.script)) ==> sock.wire == old(sock.wire) + Gather(mem, Records(ptrs))
  {
    var datas := Assemble(mem, ptrs);
    NothingDelivered(sock.wire, sock.script);
    TimesStep(0, mss);
    ChunksOfNone(mss);
    hide Gather, Healthy, Delivered, SentPart, Chunks, Times, EndedBy, InMemory;
    var p, remain := 0, |datas|;
    ghost var i := 0;
    while true
      invariant p + remain == |datas| && 0 <= p && 0 <= remain && (p > 0 ==> remain > 0)
      invariant 0 <= i && p == Times(i, mss)
      invariant Delivered(Chunks(datas[..p], mss), old(sock.wire), sock.wire, old(sock.script), sock.script)
      decreases remain
    {
      var cur := if remain > mss then mss else remain;
      ghost var now, mid := sock.wire, sock.script;
      var _ := BlockWrite(sock, datas[p..p + cur]);
      NextSegment(datas, p, cur, mss, i, old(sock.wire), now, sock.wire, old(sock.script), mid, sock.script);
      TimesStep(i, mss);
      i := i + 1;
      p := p + cur;
      remain := remain - cur;
      if !(remain > 0) {
        break;
      }
    }
    assert datas[..p] == datas;
    AllOnHealthy(datas, mss, old(sock.wire), sock.wire, old(sock.script), sock.script);
  }

  /** Another segment, after `i` full ones; there is an empty one only if there are no bytes at all. */
  lemma NextSegment(datas: seq<Byte>, p: nat, cur: nat, mss: nat, i: nat, wire: seq<Byte>, now: seq<Byte>,
                    wire': seq<Byte>, script: seq<Outcome>, mid: seq<Outcome>, script': seq<Outcome>)
    requires p + cur <= |datas| && p == Times(i, mss) && cur <= mss && 0 < mss
    requires Delivered(Chunks(datas[..p], mss), wire, now, script, mid)
    requires SentPart(datas[p..p + cur], now, wire', mid, script')
    ensures Delivered(Chunks(datas[..p + cur], mss), wire, wire', script, script')
  {
    hide Delivered, SentPart, Chunks, Times;
    assert datas[..p] + datas[p..p + cur] == datas[..p + cur];
    if cur > 0 {
      ChunksAppend(datas[..p], datas[p..p + cur], mss, i);
      OneMoreUnit(Chunks(datas[..p], mss), datas[p..p + cur], wire, now, wire', script, mid, script');
    } else {
      assert datas[p..p + cur] == [] && datas[..p + cur] == datas[..p];
      EmptyUnit(Chunks(datas[..p], mss), wire, now, wire', script, mid, script');
    }
  }

  /** Writing no bytes changes nothing. */
  lemma EmptyUnit(units: seq<seq<Byte>>, wire: seq<Byte>, now: seq<Byte>, wire': seq<Byte>,
                  script: seq<Outcome>, mid: seq<Outcome>, script': seq<Outcome>)
    requires Delivered(units, wire, now, script, mid) && SentPart([], now, wire', mid, script')
    ensures Delivered(units, wire, wire', script, script')
  {
    assert wire' == now + wire'[|now|..];
    hide Faults, Flatten, Cut;
  }

  /** Sends iovecs `from` .. `to` of `iov` and checks nothing more; the caller goes on regardless. */
  method SendBatch(sock: Socket, mem: seq<Byte>, iov: array<Iovec>, from: nat, to: nat, nbytes: nat, ghost all: seq<Iovec>)
    requires from <= to <= iov.Length == |all| && InMemory(mem, all) && iov[from..] == all[from..]
    requires InMemory(mem, all[from..to]) && nbytes == |Gather(mem, all[from..to])|
    modifies sock, iov
    ensures iov[to..] == all[to..]
    ensures 0 < nbytes ==>
      SentPart(Gather(mem, all[from..to]), old(sock.wire), sock.wire, old(sock.script), sock.script)
  {
    hide Gather, InMemory, Healthy, SentPart;
    assert iov[from..to] == iov[from..][..to - from] == all[from..to];
    assert iov[to..] == iov[from..][to - from..] == all[from..][to - from..];
    var _, _ := BlockWritev(sock, mem, iov, from, to, nbytes);
    assert iov[to..] == all[to..];
  }

  lemma {:induction false} EqualLengths(mem: seq<Byte>, iov: seq<Iovec>, size: nat)
    requires InMemory(mem, iov) && forall k :: 0 <= k < |iov| ==> iov[k].len == size
    ensures |Gather(mem, iov)| == Times(|iov|, size)
  {
    TimesStep(0, size);
    if iov != [] {
      EqualLengths(mem, iov[1..], size);
      TimesStep(|iov| - 1, size);
    }
  }

  /** writev over one iovec per record, at most 1024 at a time: a failed one costs the rest of its
      1024 records. */
  method MethodWritev(sock: Socket, mem: seq<Byte>, ptrs: seq<nat>)
    requires InMemory(mem, Records(ptrs))
    modifies sock
    ensures Delivered(Chunks(Gather(mem, Records(ptrs)), 1024 * 320),
                      old(sock.wire), sock.wire, old(sock.script), sock.script)
    ensures Healthy(old(sock.script)) ==> sock.wire == old(sock.wire) + Gather(mem, Records(ptrs))
  {
    var n := |ptrs|;
    var iov := new Iovec[n](i requires 0 <= i < |ptrs| => Iovec(ptrs[i], DATA_SIZE));
    ghost var all := Records(ptrs);
    assert iov[..] == all;
    var batches := n / MAX_IOVCNT;
    var remain := n % MAX_IOVCNT;
    hide Gather, Healthy, InMemory, Delivered, Chunks, SentPart;
    SendFullBatches(sock, mem, iov, batches, all);
    var from := batches * MAX_IOVCNT;
    assert all[..n] == all;
    if remain > 0 {
      EqualLengths(mem, all[..from], DATA_SIZE);
      GatherSplit(mem, all, from, n);
      EqualLengths(mem, all[from..n], DATA_SIZE);
      ghost var now, mid := sock.wire, sock.script;
      SendBatch(sock, mem, iov, from, n, remain * DATA_SIZE, all);
      NextBatch(mem, all, batches, from, n, 1024 * 320, old(sock.wire), now, sock.wire, old(sock.script), mid, sock.script);
    }
    AllOnHealthy(Gather(mem, all), 1024 * 320, old(sock.wire), sock.wire, old(sock.script), sock.script);
  }

  /** Another batch of iovecs, after `i` batches of `size` bytes. */
  lemma NextBatch(mem: seq<Byte>, all: seq<Iovec>, i: nat, from: nat, to: nat, size: nat, wire: seq<Byte>, now: seq<Byte>,
                  wire': seq<Byte>, script: seq<Outcome>, mid: seq<Outcome>, script': seq<Outcome>)
    requires from <= to <= |all| && InMemory(mem, all) && 0 < size
    requires InMemory(mem, all[..from]) && |Gather(mem, all[..from])| == Times(i, size)
    requires InMemory(mem, all[from..to]) && 0 < |Gather(mem, all[from..to])| <= size
    requires Delivered(Chunks(Gather(mem, all[..from]), size), wire, now, script, mid)
    requires SentPart(Gather(mem, all[from..to]), now, wire', mid, script')
    ensures InMemory(mem, all[..to])
    ensures Delivered(Chunks(Gather(mem, all[..to]), size), wire, wire', script, script')
  {
    hide Gather, InMemory, Delivered, SentPart, Chunks, Times;
    GatherSplit(mem, all, from, to);
    ChunksAppend(Gather(mem, all[..from]), Gather(mem, all[from..to]), size, i);
    OneMoreUnit(Chunks(Gather(mem, all[..from]), size), Gather(mem, all[from..to]), wire, now, wire', script, mid, script');
  }

  method SendFullBatches(sock: Socket, mem: seq<Byte>, iov: array<Iovec>, batches: nat, ghost all: seq<Iovec>)
    requires batches * MAX_IOVCNT <= iov.Length && iov[..] == all && InMemory(mem, all)
    requires forall k :: 0 <= k < |all| ==> all[k].len == DATA_SIZE
    modifies sock, iov
    ensures var to := batches * MAX_IOVCNT;
      && InMemory(mem, all[..to]) && iov[to..] == all[to..]
      && Delivered(Chunks(Gather(mem, all[..to]), 1024 * 320), old(sock.wire), sock.wire, old(sock.script), sock.script)
  {
    hide Gather, Healthy, InMemory, Delivered, Chunks, SentPart;
    var i := 0;
    NothingYet(mem, all, 1024 * 320, sock.wire, sock.script);
    while i < batches
      invariant 0 <= i <= batches && iov[i * MAX_IOVCNT..] == all[i * MAX_IOVCNT..] && InMemory(mem, all[..i * MAX_IOVCNT])
      invariant Delivered(Chunks(Gather(mem, all[..i * MAX_IOVCNT]), 1024 * 320),
                          old(sock.wire), sock.wire, old(sock.script), sock.script)
    {
      var from, to := i * MAX_IOVCNT, (i + 1) * MAX_IOVCNT;
      GatherSplit(mem, all, from, to);
      EqualLengths(mem, all[..from], DATA_SIZE);
      EqualLengths(mem, all[from..to], DATA_SIZE);
      ghost var now, mid := sock.wire, sock.script;
      SendBatch(sock, mem, iov, from, to, MAX_IOVCNT * DATA_SIZE, all);
      NextBatch(mem, all, i, from, to, 1024 * 320, old(sock.wire), now, sock.wire, old(sock.script), mid, sock.script);
      i := i + 1;
    }
  }

  lemma {:induction false} TimesMonotone(i: nat, j: nat, size: nat)
    requires i <= j
    ensures Times(i, size) <= Times(j, size)
    decreases j - i
  {
    if i < j {
      TimesMonotone(i + 1, j, size);
      TimesStep(i, size);
    }
  }

  /** Exactly the number of segments that all bytes need. */
  method SegmentCount(nbytes: nat, mss: nat) returns (count: nat)
    requires 0 < mss
    ensures nbytes <= Times(count, mss)
    ensures count > 0 ==> Times(count - 1, mss) < nbytes
  {
    count := nbytes / mss;
    assert nbytes == mss * (nbytes / mss) + nbytes % mss;
    TimesStep(count, mss);
    if nbytes % mss > 0 {
      count := count + 1;
    } else if count > 0 {
      TimesStep(count - 1, mss);
    }
  }

  /** Full segments, and a last one that is not empty. */
  predicate Sliced(iov: seq<Iovec>, mss: nat)
  {
    forall k :: 0 <= k < |iov| ==> 0 < iov[k].len <= mss && (k < |iov| - 1 ==> iov[k].len == mss)
  }

  /** Slices `datas` in segments of `mss` bytes, the last one possibly shorter. */
  method Slices(datas: seq<Byte>, mss: nat) returns (iov: array<Iovec>)
    requires 0 < mss
    ensures fresh(iov) && InMemory(datas, iov[..]) && Gather(datas, iov[..]) == datas && Sliced(iov[..], mss)
  {
    var nbytes := |datas|;
    var count := SegmentCount(nbytes, mss);
    iov := new Iovec[count](_ => Iovec(0, 0));
    var p: nat, remain: nat, i := 0, nbytes, 0;
    ghost var done: seq<Iovec> := [];
    assert Gather(datas, done) == datas[..p] && SliceStart(0, nbytes, mss) == 0 && SliceStart(count, nbytes, mss) == nbytes;
    hide Gather, InMemory, Times, SliceStart;
    while i < count
      invariant 0 <= i <= count == iov.Length && |done| == i && iov[..i] == done
      invariant p + remain == nbytes && p == SliceStart(i, nbytes, mss)
      invariant InMemory(datas, done) && Gather(datas, done) == datas[..p]
      invariant forall k :: 0 <= k < i ==> 0 < done[k].len <= mss && (k < count - 1 ==> done[k].len == mss)
    {
      var cur := if remain > mss then mss else remain;
      AddSlice(datas, done, p, cur);
      SliceStep(i, count, nbytes, mss, p);
      iov[i] := Iovec(p, cur);
      done := done + [Iovec(p, cur)];
      remain := remain - cur;
      p := p + cur;
      i := i + 1;
    }
    assert iov[..] == done && datas[..p] == datas;
  }

  /** Where the slices start and end. */
  function SliceStart(i: nat, nbytes: nat, mss: nat): (p: nat)
    ensures p <= nbytes
  {
    if Times(i, mss) <= nbytes then Times(i, mss) else nbytes
  }

  lemma SliceStep(i: nat, count: nat, nbytes: nat, mss: nat, p: nat)
    requires i < count && Times(count - 1, mss) < nbytes && 0 < mss && p == SliceStart(i, nbytes, mss)
    ensures var cur := if nbytes - p > mss then mss else nbytes - p;
      0 < cur <= mss && (i < count - 1 ==> cur == mss) && p + cur == SliceStart(i + 1, nbytes, mss)
  {
    hide Times;
    TimesStep(i, mss);
    TimesMonotone(i, count - 1, mss);
    if i < count - 1 {
      TimesMonotone(i + 1, count - 1, mss);
    }
  }

  lemma AddSlice(datas: seq<Byte>, done: seq<Iovec>, p: nat, cur: nat)
    requires p + cur <= |datas| && InMemory(datas, done) && Gather(datas, done) == datas[..p]
    ensures InMemory(datas, done + [Iovec(p, cur)])
    ensures Gather(datas, done + [Iovec(p, cur)]) == datas[..p + cur]
  {
    GatherConcat(datas, done, [Iovec(p, cur)]);
    assert Gather(datas, [Iovec(p, cur)]) == datas[p..p + cur] + Gather(datas, [Iovec(p, cur)][1..]);
    assert datas[..p] + datas[p..p + cur] == datas[..p + cur];
  }

  datatype Batch = Batch(start: nat, iovcnt: nat, nbytes: nat)

  /** Where batch number `i` of `n` iovecs ends. */
  function BatchEnd(i: nat, n: nat): nat
  {
    if i * MAX_IOVCNT <= n then i * MAX_IOVCNT else n
  }

  /** Batch number `i` is the right piece of the iovecs, and its byte count is right. */
  ghost predicate BatchOk(mem: seq<Byte>, iov: seq<Iovec>, i: nat, b: Batch)
  {
    var end := BatchEnd(i + 1, |iov|);
    && b.start == i * MAX_IOVCNT < end && b.start + b.iovcnt == end
    && InMemory(mem, iov[b.start..end]) && b.nbytes == |Gather(mem, iov[b.start..end])|
  }

  /** Adds up one batch of at most 1024 iovecs. */
  method OneBatch(mem: seq<Byte>, iov: array<Iovec>, i: nat) returns (b: Batch)
    requires InMemory(mem, iov[..]) && i * MAX_IOVCNT < iov.Length
    ensures BatchOk(mem, iov[..], i, b)
  {
    var start, iovcnt, nbytes := i * MAX_IOVCNT, 0, 0;
    ghost var s := iov[..];
    var j := 0;
    assert s[start..start] == [];
    while j < MAX_IOVCNT
      invariant 0 <= j <= MAX_IOVCNT && iovcnt == j && start + iovcnt <= |s|
      invariant InMemory(mem, s[start..start + iovcnt]) && nbytes == |Gather(mem, s[start..start + iovcnt])|
    {
      var idx := start + j;
      if idx >= iov.Length {
        break;
      }
      assert s[start..idx + 1] == s[start..idx] + [s[idx]];
      GatherConcat(mem, s[start..idx], [s[idx]]);
      assert |Gather(mem, [s[idx]])| == s[idx].len + |Gather(mem, [s[idx]][1..])|;
      iovcnt := iovcnt + 1;
      nbytes := nbytes + iov[idx].len;
      j := j + 1;
    }
    b := Batch(start, iovcnt, nbytes);
  }

  /** Groups the iovecs in batches. */
  method Batches(mem: seq<Byte>, iov: array<Iovec>) returns (batches: seq<Batch>)
    requires InMemory(mem, iov[..])
    ensures forall i :: 0 <= i < |batches| ==> BatchOk(mem, iov[..], i, batches[i])
    ensures BatchEnd(|batches|, iov.Length) == iov.Length
  {
    var count := iov.Length / MAX_IOVCNT;
    if iov.Length % MAX_IOVCNT > 0 {
      count := count + 1;
    }
    hide BatchOk;
    batches := [];
    while |batches| < count
      invariant |batches| <= count
      invariant forall i :: 0 <= i < |batches| ==> BatchOk(mem, iov[..], i, batches[i])
    {
      var b := OneBatch(mem, iov, |batches|);
      batches := batches + [b];
    }
  }

  lemma BatchFacts(mem: seq<Byte>, iov: seq<Iovec>, i: nat, b: Batch)
    requires BatchOk(mem, iov, i, b)
    ensures b.start == BatchEnd(i, |iov|) && b.start + b.iovcnt == BatchEnd(i + 1, |iov|) <= |iov|
    ensures InMemory(mem, iov[b.start..b.start + b.iovcnt])
    ensures b.nbytes == |Gather(mem, iov[b.start..b.start + b.iovcnt])|
  {
  }

  lemma {:induction false} LengthAtMost(mem: seq<Byte>, iov: seq<Iovec>, size: nat)
    requires InMemory(mem, iov) && forall k :: 0 <= k < |iov| ==> 0 < iov[k].len <= size
    ensures |Gather(mem, iov)| <= Times(|iov|, size) && (iov != [] ==> 0 < |Gather(mem, iov)|)
  {
    if iov != [] {
      LengthAtMost(mem, iov[1..], size);
      TimesStep(|iov| - 1, size);
    }
  }

  /** The batches before number `i` are full, and this one is not empty. */
  lemma BatchLength(mem: seq<Byte>, all: seq<Iovec>, i: nat, b: Batch, mss: nat)
    requires InMemory(mem, all) && Sliced(all, mss) && BatchOk(mem, all, i, b)
    ensures InMemory(mem, all[..b.start]) && |Gather(mem, all[..b.start])| == Times(i, 1024 * mss)
    ensures 0 < b.nbytes <= 1024 * mss
  {
    var end := b.start + b.iovcnt;
    hide Times, Gather;
    EqualLengths(mem, all[..b.start], mss);
    LengthAtMost(mem, all[b.start..end], mss);
    TimesMonotone(end - b.start, 1024, mss);
    TimesBatch(i, mss);
  }

  lemma TimesBatch(i: nat, mss: nat)
    ensures Times(1024, mss) == 1024 * mss && Times(i * 1024, mss) == Times(i, 1024 * mss)
  {
  }

  method SendNext(sock: Socket, mem: seq<Byte>, iov: array<Iovec>, i: nat, b: Batch, ghost all: seq<Iovec>, ghost mss: nat,
                  ghost wire: seq<Byte>, ghost script: seq<Outcome>)
    requires InMemory(mem, all) && iov.Length == |all| && BatchOk(mem, all, i, b) && Sliced(all, mss) && 0 < mss
    requires BatchEnd(i, |all|) <= |all| && iov[BatchEnd(i, |all|)..] == all[BatchEnd(i, |all|)..]
    requires InMemory(mem, all[..BatchEnd(i, |all|)])
    requires Delivered(Chunks(Gather(mem, all[..BatchEnd(i, |all|)]), 1024 * mss), wire, sock.wire, script, sock.script)
    modifies sock, iov
    ensures BatchEnd(i + 1, |all|) <= |all| && iov[BatchEnd(i + 1, |all|)..] == all[BatchEnd(i + 1, |all|)..]
    ensures InMemory(mem, all[..BatchEnd(i + 1, |all|)])
    ensures Delivered(Chunks(Gather(mem, all[..BatchEnd(i + 1, |all|)]), 1024 * mss), wire, sock.wire, script, sock.script)
  {
    hide Gather, InMemory, BatchOk, BatchEnd, Delivered, Chunks, SentPart, Sliced, Times;
    BatchFacts(mem, all, i, b);
    BatchLength(mem, all, i, b, mss);
    SendBatch(sock, mem, iov, b.start, b.start + b.iovcnt, b.nbytes, all);
    NextBatch(mem, all, i, b.start, b.start + b.iovcnt, 1024 * mss,
              wire, old(sock.wire), sock.wire, script, old(sock.script), sock.script);
  }

  method SendBatches(sock: Socket, mem: seq<Byte>, iov: array<Iovec>, batches: seq<Batch>,
                     ghost all: seq<Iovec>, ghost mss: nat)
    requires InMemory(mem, all) && iov[..] == all && Sliced(all, mss) && 0 < mss
    requires forall i :: 0 <= i < |batches| ==> BatchOk(mem, all, i, batches[i])
    modifies sock, iov
    ensures InMemory(mem, all[..BatchEnd(|batches|, |all|)])
    ensures Delivered(Chunks(Gather(mem, all[..BatchEnd(|batches|, |all|)]), 1024 * mss),
                      old(sock.wire), sock.wire, old(sock.script), sock.script)
  {
    assert BatchEnd(0, |all|) == 0;
    hide Gather, InMemory, BatchOk, BatchEnd, Delivered, Chunks, Sliced;
    var i := 0;
    NothingYet(mem, all, 1024 * mss, sock.wire, sock.script);
    while i < |batches|
      invariant 0 <= i <= |batches| && BatchEnd(i, |all|) <= |all|
      invariant iov[BatchEnd(i, |all|)..] == all[BatchEnd(i, |all|)..]
      invariant InMemory(mem, all[..BatchEnd(i, |all|)])
      invariant Delivered(Chunks(Gather(mem, all[..BatchEnd(i, |all|)]), 1024 * mss),
                          old(sock.wire), sock.wire, old(sock.script), sock.script)
    {
      SendNext(sock, mem, iov, i, batches[i], all, mss, old(sock.wire), old(sock.script));
      i := i + 1;
    }
  }

  /** Everything in one buffer, sliced in segments, with writev over at most 1024 of them at a time: a
      failed one costs the rest of its 1024 segments. */
  method MethodAssembleWritev(sock: Socket, mem: seq<Byte>, ptrs: seq<nat>, mss: nat)
    requires InMemory(mem, Records(ptrs)) && 0 < mss
    modifies sock
    ensures Delivered(Chunks(Gather(mem, Records(ptrs)), 1024 * mss),
                      old(sock.wire), sock.wire, old(sock.script), sock.script)
    ensures Healthy(old(sock.script)) ==> sock.wire == old(sock.wire) + Gather(mem, Records(ptrs))
  {
    hide Gather, Healthy, BatchOk, Delivered, Chunks, Sliced;
    var datas := Assemble(mem, ptrs);
    var iov := Slices(datas, mss);
    var batches := Batches(datas, iov);
    ghost var all := iov[..];
    SendBatches(sock, datas, iov, batches, all, mss);
    assert all[..|all|] == all;
    AllOnHealthy(datas, 1024 * mss, old(sock.wire), sock.wire, old(sock.script), sock.script);
  }

  /** On sockets that only cut writes short or ask to retry, in whatever pattern, all five methods
      put the same bytes on the wire: the records in order. */
  method SameStream(mem: seq<Byte>, ptrs: seq<nat>, mss: nat, scripts: seq<seq<Outcome>>) returns (wires: seq<seq<Byte>>)
    requires InMemory(mem, Records(ptrs)) && 0 < mss
    requires |scripts| == 5 && forall k :: 0 <= k < 5 ==> Healthy(scripts[k])
    ensures |wires| == 5 && forall k :: 0 <= k < 5 ==> wires[k] == Gather(mem, Records(ptrs))
  {
    hide Gather, Healthy, InMemory, Delivered, Chunks;
    var a := new Socket(scripts[0]);
    MethodWrite(a, mem, ptrs);
    var b := new Socket(scripts[1]);
    MethodWritev(b, mem, ptrs);
    var c := new Socket(scripts[2]);
    MethodBigWrite(c, mem, ptrs);
    var d := new Socket(scripts[3]);
    MethodAssembleWrite(d, mem, ptrs, mss);
    var e := new Socket(scripts[4]);
    MethodAssembleWritev(e, mem, ptrs, mss);
    wires := [a.wire, b.wire, c.wire, d.wire, e.wire];
  }
}
