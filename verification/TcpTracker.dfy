/**
  The TCP session tracker: one session per direction of a connection, with the sequence number
  expected next. Sequence numbers are 32-bit words and wrap around.
  */
module TcpTracker {
  import opened Options

  type Seq32 = x: nat | x < 0x1_0000_0000

  /** Addition of sequence numbers, modulo 2^32. */
  function Plus(a: Seq32, n: nat): Seq32
  {
    (a + n) % 0x1_0000_0000
  }

  datatype Endpoint = Endpoint(addr: nat, port: nat)
  datatype Key = Key(src: Endpoint, dst: Endpoint)
  datatype Packet = Packet(key: Key, seq_: Seq32, datalen: Seq32, syn: bool, fin: bool, ack: bool)

  datatype Status = Established | FinSent
  datatype Session = Session(status: Status, next: Seq32)
  type Table = map<Key, Session>

  function Reverse(k: Key): Key
  {
    Key(k.dst, k.src)
  }

  /** The session a packet belongs to; a new one starts at the packet's own number. */
  function Find(t: Table, p: Packet): Session
  {
    if p.key in t then t[p.key] else Session(Established, p.seq_)
  }

  predicate Flagged(t: Table, p: Packet)
  {
    Find(t, p).next != p.seq_
  }

  /** The program's idea of the number after this packet. */
  function Advance(s: Session, p: Packet): Seq32
  {
    if p.syn || p.fin then Plus(s.next, 1) else Plus(p.seq_, p.datalen)
  }

  /** Both directions have sent their FIN before this packet, and it acknowledges. */
  predicate Closes(t: Table, p: Packet)
  {
    && p.key in t && t[p.key].status.FinSent? && p.ack
    && Reverse(p.key) in t && t[Reverse(p.key)].status.FinSent?
  }

  function Update(t: Table, p: Packet): Session
  {
    Session(if p.fin then FinSent else Find(t, p).status, Advance(Find(t, p), p))
  }

  function Handled(t: Table, p: Packet): Table
  {
    if Closes(t, p) then t - {p.key, Reverse(p.key)} else t[p.key := Update(t, p)]
  }

  class Tracker {
    var sessions: Table

    constructor ()
      ensures sessions == map[]
    {
      sessions := map[];
    }

    /** Handles one packet; says whether its sequence number was unexpected. */
    method HandlePacket(p: Packet) returns (unexpected: bool)
      modifies this
      ensures sessions == Handled(old(sessions), p)
      ensures unexpected == Flagged(old(sessions), p)
    {
      hide Plus;
      if p.key !in sessions {
        sessions := sessions[p.key := Session(Established, p.seq_)];
      }
      unexpected := sessions[p.key].next != p.seq_;
      if p.syn || p.fin {
        sessions := sessions[p.key := sessions[p.key].(next := Plus(sessions[p.key].next, 1))];
      } else {
        sessions := sessions[p.key := sessions[p.key].(next := Plus(p.seq_, p.datalen))];
      }
      if sessions[p.key].status.FinSent? && p.ack {
        var remote := Reverse(p.key);
        if remote in sessions && sessions[remote].status.FinSent? {
          sessions := sessions - {p.key};
          sessions := sessions - {remote};
          assert sessions == old(sessions) - {p.key, remote};
          return;
        }
      }
      if p.fin {
        sessions := sessions[p.key := sessions[p.key].(status := FinSent)];
      }
      assert sessions == old(sessions)[p.key := Update(old(sessions), p)];
    }
  }

  // ---- whole traces

  function Run(t: Table, trace: seq<Packet>): Table
  {
    if trace == [] then t else Handled(Run(t, trace[..|trace| - 1]), trace[|trace| - 1])
  }

  /** The sequence space a segment takes up: its data, plus one for SYN and one for FIN. */
  function SegLen(p: Packet): nat
  {
    p.datalen + (if p.syn then 1 else 0) + (if p.fin then 1 else 0)
  }

  /** A segment that the program counts as the standard does: SYN and FIN segments carry nothing else. */
  predicate Counted(p: Packet)
  {
    p.syn || p.fin ==> SegLen(p) % 0x1_0000_0000 == 1
  }

  /** The number that follows the latest segment of direction `k`. */
  function Expected(trace: seq<Packet>, k: Key): Option<Seq32>
  {
    if trace == [] then None
    else
      var p := trace[|trace| - 1];
      if p.key == k then Some(Plus(p.seq_, SegLen(p))) else Expected(trace[..|trace| - 1], k)
  }

  /** In order and without loss: every segment starts where the one before it, in its direction,
      ended. A SYN opens a connection and may start anywhere. */
  ghost predicate InOrder(trace: seq<Packet>)
  {
    forall i :: 0 <= i < |trace| ==>
      trace[i].syn || Expected(trace[..i], trace[i].key) in {None, Some(trace[i].seq_)}
  }

  /** A segment of direction `p.key` that does not go on from the one before it. */
  predicate Restarts(trace: seq<Packet>, p: Packet)
  {
    Expected(trace, p.key) !in {None, Some(p.seq_)}
  }

  /** Whenever a connection is opened anew, the session of its direction has left the table. */
  ghost predicate CleanStarts(trace: seq<Packet>)
  {
    forall i :: 0 <= i < |trace| && Restarts(trace[..i], trace[i]) ==> trace[i].key !in Run(map[], trace[..i])
  }

  ghost predicate AllCounted(trace: seq<Packet>)
  {
    forall i :: 0 <= i < |trace| ==> Counted(trace[i])
  }

  /** Every session expects what the trace says comes next in its direction. */
  ghost predicate OnTrack(t: Table, trace: seq<Packet>)
  {
    forall k <- t :: Expected(trace, k) == Some(t[k].next)
  }

  lemma StepOnTrack(t: Table, trace: seq<Packet>, p: Packet)
    requires OnTrack(t, trace) && Counted(p) && (p.key !in t || Expected(trace, p.key) == Some(p.seq_))
    ensures !Flagged(t, p)
    ensures OnTrack(Handled(t, p), trace + [p])
  {
    var u, all := Handled(t, p), trace + [p];
    assert all[..|all| - 1] == trace;
    hide SegLen, Plus, Counted;
    forall k | k in u ensures Expected(all, k) == Some(u[k].next) {
      if k == p.key {
        AdvanceCounted(p);
      }
    }
  }

  lemma AdvanceCounted(p: Packet)
    ensures Advance(Session(Established, p.seq_), p) == Plus(p.seq_, SegLen(p)) <==> Counted(p)
  {
  }

  lemma {:induction false} RunOnTrack(trace: seq<Packet>)
    requires AllCounted(trace) && CleanStarts(trace)
    ensures OnTrack(Run(map[], trace), trace)
  {
    if trace != [] {
      var init, p := trace[..|trace| - 1], trace[|trace| - 1];
      CleanPrefix(trace, |trace| - 1);
      RunOnTrack(init);
      assert Restarts(init, p) ==> p.key !in Run(map[], init);
      NotRestarting(Run(map[], init), init, p);
      assert init + [p] == trace;
      RunStep(init, p);
      hide CleanStarts, AllCounted, Handled, Expected, OnTrack, Run;
      StepOnTrack(Run(map[], init), init, p);
    }
  }

  lemma NotRestarting(t: Table, trace: seq<Packet>, p: Packet)
    requires OnTrack(t, trace) && (Restarts(trace, p) ==> p.key !in t)
    ensures p.key !in t || Expected(trace, p.key) == Some(p.seq_)
  {
    hide Expected;
  }

  lemma CleanPrefix(trace: seq<Packet>, n: nat)
    requires n <= |trace| && AllCounted(trace) && CleanStarts(trace)
    ensures AllCounted(trace[..n]) && CleanStarts(trace[..n])
  {
    hide Expected, Counted, Restarts, Run;
    forall i | 0 <= i < n && Restarts(trace[..n][..i], trace[..n][i])
      ensures trace[..n][i].key !in Run(map[], trace[..n][..i])
    {
      assert trace[..n][..i] == trace[..i];
    }
  }

  /** No false alarm: no packet is flagged, across wrap-around and however connections interleave,
      close and reopen with fresh numbers, as long as each is opened after the last session of its
      direction has left the table. */
  lemma NoFalseAlarm(trace: seq<Packet>, i: nat)
    requires AllCounted(trace) && CleanStarts(trace) && i < |trace|
    ensures !Flagged(Run(map[], trace[..i]), trace[i])
  {
    CleanPrefix(trace, i);
    RunOnTrack(trace[..i]);
    assert Restarts(trace[..i], trace[i]) ==> trace[i].key !in Run(map[], trace[..i]);
    hide CleanStarts, Handled, Expected;
    StepOnTrack(Run(map[], trace[..i]), trace[..i], trace[i]);
  }

  /** After such a trace the next packet is flagged exactly when it starts anew, which in order only
      a SYN does, while the session of its direction is still in the table. */
  lemma FlaggedExactly(trace: seq<Packet>, p: Packet)
    requires AllCounted(trace) && CleanStarts(trace)
    ensures Flagged(Run(map[], trace), p) <==> Restarts(trace, p) && p.key in Run(map[], trace)
  {
    RunOnTrack(trace);
    hide Run, Expected;
  }

  /** A trace raises no alarm if and only if every start anew is clean. */
  lemma {:induction false} SilentIffClean(trace: seq<Packet>)
    requires AllCounted(trace)
    ensures (forall i :: 0 <= i < |trace| ==> !Flagged(Run(map[], trace[..i]), trace[i])) <==> CleanStarts(trace)
  {
    if CleanStarts(trace) {
      forall i | 0 <= i < |trace| ensures !Flagged(Run(map[], trace[..i]), trace[i]) {
        NoFalseAlarm(trace, i);
      }
    } else {
      assert trace[..|trace|] == trace;
      var i := FirstUnclean(trace, |trace|);
      AllCountedPrefix(trace, i);
      FlaggedExactly(trace[..i], trace[i]);
    }
  }

  lemma AllCountedPrefix(trace: seq<Packet>, n: nat)
    requires n <= |trace| && AllCounted(trace)
    ensures AllCounted(trace[..n])
  {
    hide Counted;
  }

  lemma {:induction false} FirstUnclean(trace: seq<Packet>, n: nat) returns (i: nat)
    requires n <= |trace| && !CleanStarts(trace[..n])
    ensures i < |trace| && CleanStarts(trace[..i])
    ensures Restarts(trace[..i], trace[i]) && trace[i].key in Run(map[], trace[..i])
    decreases n
  {
    hide Run, Restarts;
    var j :| 0 <= j < n && Restarts(trace[..n][..j], trace[..n][j]) && trace[..n][j].key in Run(map[], trace[..n][..j]);
    assert trace[..n][..j] == trace[..j];
    if CleanStarts(trace[..j]) {
      i := j;
    } else {
      i := FirstUnclean(trace, j);
    }
  }

  /** Only a SYN can start anew in a trace without loss. */
  lemma OnlySynRestarts(trace: seq<Packet>, i: nat)
    requires InOrder(trace) && i < |trace| && Restarts(trace[..i], trace[i])
    ensures trace[i].syn
  {
    hide Expected;
  }

  /** One more packet of a trace. */
  lemma RunStep(trace: seq<Packet>, p: Packet)
    ensures Run(map[], trace + [p]) == Handled(Run(map[], trace), p)
  {
    assert (trace + [p])[..|trace|] == trace;
  }

  /** A simultaneous close: the first acknowledgement removes both sessions, the second one starts a
      session again, which the next connection then meets. */
  function SimultaneousClose(k: Key): seq<Packet>
  {
    [Packet(k, 101, 0, false, true, true), Packet(Reverse(k), 901, 0, false, true, true),
     Packet(k, 102, 0, false, false, true), Packet(Reverse(k), 902, 0, false, false, true),
     Packet(k, 5000, 0, true, false, false)]
  }

  lemma BothRemoved(k: Key)
    requires k.src != k.dst
    ensures Run(map[], SimultaneousClose(k)[..3]) == map[]
  {
    var t := SimultaneousClose(k);
    assert Run(map[], []) == map[] && Reverse(Reverse(k)) == k && Reverse(k) != k;
    hide Run, Expected;
    RunStep([], t[0]);
    assert [] + [t[0]] == t[..1];
    assert Run(map[], t[..1]) == map[k := Session(FinSent, 102)];
    RunStep(t[..1], t[1]);
    assert t[..1] + [t[1]] == t[..2];
    assert Run(map[], t[..2]) == map[k := Session(FinSent, 102), Reverse(k) := Session(FinSent, 902)];
    RunStep(t[..2], t[2]);
    assert t[..2] + [t[2]] == t[..3];
  }

  lemma AfterSimultaneousClose(k: Key)
    requires k.src != k.dst
    ensures Run(map[], SimultaneousClose(k)) ==
      map[k := Session(Established, 5001), Reverse(k) := Session(Established, 902)]
  {
    BothRemoved(k);
    hide Run, Expected;
    var t := SimultaneousClose(k);
    assert Reverse(k) != k;
    RunStep(t[..3], t[3]);
    assert t[..3] + [t[3]] == t[..4];
    assert Run(map[], t[..4]) == map[Reverse(k) := Session(Established, 902)];
    RunStep(t[..4], t[4]);
    assert t[..4] + [t[4]] == t;
  }

  /** Its SYN and ACK is flagged, though nothing was lost. */
  lemma ReopeningFlagged(k: Key)
    requires k.src != k.dst
    ensures var trace, p := SimultaneousClose(k), Packet(Reverse(k), 7000, 0, true, false, true);
      Flagged(Run(map[], trace), p) && InOrder(trace + [p]) && AllCounted(trace + [p])
  {
    AfterSimultaneousClose(k);
    var t, p := SimultaneousClose(k), Packet(Reverse(k), 7000, 0, true, false, true);
    var all := t + [p];
    assert Reverse(k) != k;
    hide Run;
    ExpectedAfter(t[..1], t[1]);
    ExpectedAfter([], t[0]);
    assert [] + [t[0]] == t[..1] == all[..1] && t[..1] + [t[1]] == t[..2] == all[..2];
    ExpectedAfter(t[..2], t[2]);
    assert t[..2] + [t[2]] == t[..3] == all[..3];
    hide Expected;
    assert Expected(all[..1], t[1].key) == None && Expected(all[..2], t[2].key) == Some(102);
    assert Expected(all[..3], t[3].key) == Some(902);
  }

  lemma ExpectedAfter(trace: seq<Packet>, p: Packet)
    ensures forall k :: Expected(trace + [p], k) == (if p.key == k then Some(Plus(p.seq_, SegLen(p))) else Expected(trace, k))
  {
    assert (trace + [p])[..|trace|] == trace;
  }

  /** Right after both sessions have left, a connection can be opened with any numbers. */
  lemma ReopensCleanly(t: Table, p: Packet, q: Packet)
    requires Closes(t, p) && (q.key == p.key || q.key == Reverse(p.key))
    ensures !Flagged(Handled(t, p), q)
  {
  }

  /** The condition is exact: in a session that is in step, the next segment in order is flagged if
      and only if this one is a SYN or FIN that takes up more than one number. */
  lemma MiscountFlagged(t: Table, p: Packet, q: Packet)
    requires !Flagged(t, p) && !Closes(t, p)
    requires q.key == p.key && q.seq_ == Plus(p.seq_, SegLen(p))
    ensures Flagged(Handled(t, p), q) <==> !Counted(p)
  {
    hide Plus, SegLen, Counted;
    AdvanceCounted(p);
  }

  /** For example, a FIN with ten bytes of data. */
  lemma FinWithDataFlagged(k: Key)
    ensures var p := Packet(k, 5, 10, false, true, true);
      Flagged(Handled(map[], p), Packet(k, Plus(5, SegLen(p)), 0, false, false, true))
  {
    var p := Packet(k, 5, 10, false, true, true);
    MiscountFlagged(map[], p, Packet(k, Plus(5, SegLen(p)), 0, false, false, true));
  }

  /** The packets of direction `k` since its present session began. */
  ghost function Life(trace: seq<Packet>, k: Key): seq<Packet>
  {
    if k !in Run(map[], trace) then []
    else if trace == [] then []
    else
      var init, p := trace[..|trace| - 1], trace[|trace| - 1];
      if p.key == k then Life(init, k) + [p] else Life(init, k)
  }

  // ---- traces with loss

  predicate Plain(p: Packet)
  {
    !p.syn && !p.fin
  }

  /** Whatever was expected before, and flagged or not: a plain segment sets the number for the next one
      to its own end, and a SYN or FIN moves it by one. */
  lemma Resynchronises(t: Table, p: Packet, q: Packet)
    requires !Closes(t, p) && q.key == p.key
    ensures Plain(p) ==> (Flagged(Handled(t, p), q) <==> q.seq_ != (p.seq_ + p.datalen) % 0x1_0000_0000)
    ensures !Plain(p) ==>
      (Flagged(Handled(t, p), q) <==> q.seq_ != ((if p.key in t then t[p.key].next else p.seq_) + 1) % 0x1_0000_0000)
  {
  }

  lemma LifeStep(trace: seq<Packet>, k: Key)
    requires trace != [] && k in Run(map[], trace)
    ensures var init, p := trace[..|trace| - 1], trace[|trace| - 1];
      && Life(trace, k) == (if p.key == k then Life(init, k) + [p] else Life(init, k))
      && (p.key != k ==> k in Run(map[], init) && Run(map[], trace)[k] == Run(map[], init)[k])
      && (p.key == k ==> !Closes(Run(map[], init), p) && Run(map[], trace)[k] == Update(Run(map[], init), p))
      && (k !in Run(map[], init) ==> Life(init, k) == [])
  {
    hide Plus;
  }

  /** The number a session expects after any trace, with any losses: the end of its last plain segment,
      and one more for each SYN or FIN since. */
  lemma {:induction false} ExpectedAfterLoss(trace: seq<Packet>, k: Key, j: nat)
    requires k in Run(map[], trace) && j < |Life(trace, k)| && Plain(Life(trace, k)[j])
    requires forall i :: j < i < |Life(trace, k)| ==> !Plain(Life(trace, k)[i])
    ensures var life := Life(trace, k);
      Run(map[], trace)[k].next == (life[j].seq_ + life[j].datalen + (|life| - 1 - j)) % 0x1_0000_0000
  {
    if trace != [] {
      var init, p, life := trace[..|trace| - 1], trace[|trace| - 1], Life(trace, k);
      LifeStep(trace, k);
      hide Run, Life, Handled, Closes, Plus;
      if p.key != k {
        ExpectedAfterLoss(init, k, j);
      } else if j < |life| - 1 {
        var before := Life(init, k);
        assert before == life[..|life| - 1] && before[j] == life[j] && life[|life| - 1] == p;
        assert forall i :: j < i < |before| ==> before[i] == life[i];
        ExpectedAfterLoss(init, k, j);
        OneMore(life[j].seq_ + life[j].datalen + (|before| - 1 - j));
      } else {
        EndOf(p);
      }
    }
  }

  lemma OneMore(x: nat)
    ensures Plus(x % 0x1_0000_0000, 1) == (x + 1) % 0x1_0000_0000
  {
  }

  lemma EndOf(p: Packet)
    ensures Plus(p.seq_, p.datalen) == (p.seq_ + p.datalen) % 0x1_0000_0000
  {
  }

  /** Without a plain segment so far, it is counted from the number the session started with. */
  lemma {:induction false} ExpectedSoFar(trace: seq<Packet>, k: Key)
    requires k in Run(map[], trace)
    requires forall i :: 0 <= i < |Life(trace, k)| ==> !Plain(Life(trace, k)[i])
    ensures var life := Life(trace, k);
      life != [] && Run(map[], trace)[k].next == (life[0].seq_ + |life|) % 0x1_0000_0000
  {
    if trace != [] {
      var init, p, life := trace[..|trace| - 1], trace[|trace| - 1], Life(trace, k);
      LifeStep(trace, k);
      hide Run, Life, Handled, Closes, Plus;
      if p.key != k {
        ExpectedSoFar(init, k);
      } else {
        var before := Life(init, k);
        assert before == life[..|life| - 1] && life[|life| - 1] == p;
        assert forall i :: 0 <= i < |before| ==> before[i] == life[i];
        if k in Run(map[], init) {
          ExpectedSoFar(init, k);
          OneMore(life[0].seq_ + |before|);
        } else {
          OneMore(p.seq_);
        }
      }
    }
  }

  /** So after any trace a packet that follows a plain one is flagged exactly when it does not start where
      that one ended: an earlier loss raises no further alarm. */
  lemma FlaggedAfterLoss(trace: seq<Packet>, p: Packet)
    requires p.key in Run(map[], trace) && Life(trace, p.key) != []
    requires Plain(Life(trace, p.key)[|Life(trace, p.key)| - 1])
    ensures var last := Life(trace, p.key)[|Life(trace, p.key)| - 1];
      Flagged(Run(map[], trace), p) <==> p.seq_ != (last.seq_ + last.datalen) % 0x1_0000_0000
  {
    ExpectedAfterLoss(trace, p.key, |Life(trace, p.key)| - 1);
    hide Life, Run;
  }

  /** In one direction, with plain segments only, each gap raises one alarm and nothing else does. */
  lemma OneAlarmPerGap(trace: seq<Packet>, k: Key, i: nat)
    requires forall j :: 0 <= j < |trace| ==> trace[j].key == k && Plain(trace[j])
    requires i < |trace|
    ensures Flagged(Run(map[], trace[..i]), trace[i]) <==>
      0 < i && trace[i].seq_ != (trace[i - 1].seq_ + trace[i - 1].datalen) % 0x1_0000_0000
  {
    if i > 0 {
      assert trace[..i - 1] + [trace[i - 1]] == trace[..i];
      RunStep(trace[..i - 1], trace[i - 1]);
      NeverFin(trace[..i - 1], k);
      hide Run;
      Resynchronises(Run(map[], trace[..i - 1]), trace[i - 1], trace[i]);
    }
  }

  lemma {:induction false} NeverFin(trace: seq<Packet>, k: Key)
    requires forall i :: 0 <= i < |trace| ==> trace[i].key == k && Plain(trace[i])
    ensures forall x <- Run(map[], trace) :: Run(map[], trace)[x].status.Established?
  {
    hide Plus;
    if trace != [] {
      var init, p := trace[..|trace| - 1], trace[|trace| - 1];
      assert Plain(p);
      NeverFin(init, k);
      assert Run(map[], trace) == Handled(Run(map[], init), p);
      assert Find(Run(map[], init), p).status.Established?;
    }
  }

  predicate HasFin(life: seq<Packet>)
  {
    exists i :: 0 <= i < |life| && life[i].fin
  }

  lemma HasFinAppend(life: seq<Packet>, p: Packet)
    ensures HasFin(life + [p]) <==> HasFin(life) || p.fin
  {
    var all := life + [p];
    if HasFin(life) {
      var i :| 0 <= i < |life| && life[i].fin;
      assert all[i].fin;
    }
    if p.fin { assert all[|life|].fin; }
    if HasFin(all) {
      var i :| 0 <= i < |all| && all[i].fin;
      if i < |life| { assert life[i].fin; }
    }
  }

  /** A session is marked closed exactly when a FIN was seen in its own lifetime. */
  lemma {:induction false} MarkedIffFin(trace: seq<Packet>, k: Key)
    ensures k in Run(map[], trace) ==> (Run(map[], trace)[k].status.FinSent? <==> HasFin(Life(trace, k)))
  {
    if trace != [] && k in Run(map[], trace) {
      var init, p := trace[..|trace| - 1], trace[|trace| - 1];
      MarkedIffFin(init, k);
      hide HasFin, Plus;
      HasFinAppend(Life(init, k), p);
      if k !in Run(map[], init) {
        assert Life(init, k) == [];
        NoFinInNothing();
      }
    }
  }

  lemma NoFinInNothing()
    ensures !HasFin([])
  {
  }

  /** A session leaves the table exactly when an acknowledging packet finds that a FIN was seen in both
      directions, and then only together with the reverse session. */
  lemma LeavesInPairs(trace: seq<Packet>, p: Packet)
    ensures var t := Run(map[], trace);
      var u := Run(map[], trace + [p]);
      var back := Reverse(p.key);
      var closed := p.ack && p.key in t && back in t && HasFin(Life(trace, p.key)) && HasFin(Life(trace, back));
      && t.Keys - u.Keys == (if closed then {p.key, back} else {})
      && (closed || u.Keys == t.Keys + {p.key})
  {
    var all := trace + [p];
    assert all[..|all| - 1] == trace;
    MarkedIffFin(trace, p.key);
    MarkedIffFin(trace, Reverse(p.key));
    hide HasFin, Life, Plus;
  }

  /** Feeds a whole trace to a new tracker. */
  method Watch(trace: seq<Packet>) returns (alarms: seq<bool>)
    ensures |alarms| == |trace|
    ensures forall i :: 0 <= i < |trace| ==> alarms[i] == Flagged(Run(map[], trace[..i]), trace[i])
    ensures AllCounted(trace) ==> (true !in alarms <==> CleanStarts(trace))
  {
    hide CleanStarts, AllCounted, Handled, Flagged;
    assert Run(map[], []) == map[];
    hide Run;
    var tracker := new Tracker();
    alarms := [];
    var n := 0;
    while n < |trace|
      invariant 0 <= n <= |trace| && |alarms| == n && tracker.sessions == Run(map[], trace[..n])
      invariant forall i :: 0 <= i < n ==> alarms[i] == Flagged(Run(map[], trace[..i]), trace[i])
    {
      var unexpected := tracker.HandlePacket(trace[n]);
      assert trace[..n] + [trace[n]] == trace[..n + 1];
      RunStep(trace[..n], trace[n]);
      alarms := alarms + [unexpected];
      n := n + 1;
    }
    if AllCounted(trace) {
      SilentIffClean(trace);
      assert true in alarms <==> exists i :: 0 <= i < |alarms| && alarms[i];
    }
  }
}
