/**
 * The B-CAS conditional-access client: the ECM input gate, the keystate
 * reset, and the per-service list of ECM PIDs that is kept in step with the
 * service's CA descriptors by mark, scan and sweep.
 *
 * Calls into code outside this file are recorded, in order, in an event
 * log: the ECM decoder, the demux's open_pid/close_pid, the key delivery
 * and the rate-limited log line.  The decoder's answer and the limiter's
 * answer are inputs of the operations that use them.
 */
module Bcas {
  import opened Bytes

  /** CA_system_id of B-CAS (ARIB STD-B10). */
  const CaidBcas: int := 0x0005
  /** table_id of an ECM section. */
  const EcmTableId: Byte := 0x82
  /** The shortest section the gate lets through. */
  const MinEcmLength: int := 38
  /** The period given to the decode-error log limiter. */
  const ErrLogLimit: int := 10

  /** The descrambler keystates; this client sets UNKNOWN and FORBIDDEN. */
  datatype KeyState = Init | Unknown | Resolved | Forbidden | Idle

  /** One descrambling key as the decoder writes it into keys[2][8]. */
  type Key = k: seq<Byte> | |k| == 8 witness [0, 0, 0, 0, 0, 0, 0, 0]

  /** What the ECM decoder returns: 0 or an error code, and the two keys it wrote. */
  datatype DecodeResult = DecodeResult(ret: int, key0: Key, key1: Key)

  /** A call out of this client, in the order it is made. */
  datatype Event =
    | DecodeEcm(payload: seq<Byte>)
    | DecodeErrorLogged(errno: int)
    | KeysDelivered(first: Key, second: Key)
    | OpenPid(pid: int)
    | ClosePid(pid: int)

  /** One tracked ECM stream. */
  datatype EcmStream = EcmStream(pid: int, toBeRemoved: bool)

  /** A CA id of an elementary stream. */
  datatype Caid = Caid(inUse: bool, caid: int, pid: int)

  /** A filtered component of the service. */
  datatype Stream = Stream(isCa: bool, esPid: int, caids: seq<Caid>)

  /** The parts of a service that the PID scan reads. */
  datatype CaConfig = CaConfig(components: seq<Stream>, prefCapidForced: bool, prefCapid: int, forceCaid: int)

  // ---------------------------------------------------------------------
  // ECM input gate

  /** Sections the gate drops before any decoding. */
  predicate GateDrops(data: seq<Byte>, emm: bool)
  {
    emm || |data| < MinEcmLength || data[0] != EcmTableId
  }

  /** The ECM payload handed to the decoder: 8 header bytes and 4 trailing bytes stripped. */
  function EcmPayload(data: seq<Byte>): (payload: seq<Byte>)
    requires |data| >= 12
    ensures |payload| == |data| - 12
    ensures forall i :: 0 <= i < |payload| ==> payload[i] == data[8 + i]
  {
    data[8..|data| - 4]
  }

  // ---------------------------------------------------------------------
  // The PID scan, as functions of the list

  predicate DistinctPids(s: seq<EcmStream>)
  {
    forall i, j :: 0 <= i < j < |s| ==> s[i].pid != s[j].pid
  }

  predicate Distinct(s: seq<int>)
  {
    forall i, j :: 0 <= i < j < |s| ==> s[i] != s[j]
  }

  function PidSet(s: seq<EcmStream>): set<int>
  {
    set e | e in s :: e.pid
  }

  /** The PIDs whose entries are not marked for removal. */
  function Unmarked(s: seq<EcmStream>): set<int>
  {
    set e | e in s && !e.toBeRemoved :: e.pid
  }

  function Elements(s: seq<int>): set<int>
  {
    set p | p in s
  }

  /** The marking pass: every entry flagged for removal. */
  function Marked(s: seq<EcmStream>): (r: seq<EcmStream>)
    ensures |r| == |s|
  {
    seq(|s|, i requires 0 <= i < |s| => s[i].(toBeRemoved := true))
  }

  /** A stream whose CA ids are looked at. */
  predicate StreamScanned(cfg: CaConfig, st: Stream)
  {
    st.isCa && !(cfg.prefCapidForced && cfg.prefCapid != st.esPid)
  }

  /** A CA id that names a PID to track. */
  predicate CaidWanted(cfg: CaConfig, c: Caid)
  {
    c.inUse && c.caid == CaidBcas && !(cfg.forceCaid != 0 && cfg.forceCaid != c.caid)
  }

  /** Every PID that some wanted CA id of some scanned stream names. */
  function Wanted(cfg: CaConfig): set<int>
  {
    set st, c | st in cfg.components && StreamScanned(cfg, st) && c in st.caids && CaidWanted(cfg, c) :: c.pid
  }

  /** The PID of the first wanted CA id, if any. */
  function FirstWanted(cfg: CaConfig, caids: seq<Caid>): (p: Option<int>)
    ensures p.Some? <==> exists c :: c in caids && CaidWanted(cfg, c)
    ensures p.Some? ==> exists c :: c in caids && CaidWanted(cfg, c) && c.pid == p.value
  {
    if caids == [] then None
    else if CaidWanted(cfg, caids[0]) then Some(caids[0].pid)
    else FirstWanted(cfg, caids[1..])
  }

  datatype Option<T> = None | Some(value: T)

  /** The first entry with this PID, or -1: the list search of the scan. */
  function IndexOf(s: seq<EcmStream>, pid: int): (j: int)
    ensures -1 <= j < |s|
    ensures j >= 0 ==> s[j].pid == pid
    ensures forall k :: 0 <= k < |s| && (j < 0 || k < j) ==> s[k].pid != pid
  {
    if s == [] then -1
    else if s[0].pid == pid then 0
    else
      var k := IndexOf(s[1..], pid);
      if k < 0 then -1 else k + 1
  }

  /** The list during the scan, and the PIDs opened so far. */
  datatype ScanState = ScanState(ecm: seq<EcmStream>, opens: seq<int>)

  /**
   * The CA ids of one stream: a wanted PID already in the list is unmarked
   * and ends the stream; a new one is put at the head and opened.
   */
  function ScanCaids(cfg: CaConfig, st: ScanState, caids: seq<Caid>): (r: ScanState)
    ensures st.opens <= r.opens
    ensures |r.ecm| == |st.ecm| + |r.opens| - |st.opens|
    decreases |caids|
  {
    if caids == [] then st
    else if !CaidWanted(cfg, caids[0]) then ScanCaids(cfg, st, caids[1..])
    else
      var j := IndexOf(st.ecm, caids[0].pid);
      if j >= 0 then ScanState(st.ecm[j := st.ecm[j].(toBeRemoved := false)], st.opens)
      else ScanCaids(cfg, ScanState([EcmStream(caids[0].pid, false)] + st.ecm, st.opens + [caids[0].pid]), caids[1..])
  }

  /** The scan over the service's filtered components. */
  function ScanStreams(cfg: CaConfig, st: ScanState, streams: seq<Stream>): (r: ScanState)
    ensures st.opens <= r.opens
    ensures |r.ecm| == |st.ecm| + |r.opens| - |st.opens|
    decreases |streams|
  {
    if streams == [] then st
    else if !StreamScanned(cfg, streams[0]) then ScanStreams(cfg, st, streams[1..])
    else ScanStreams(cfg, ScanCaids(cfg, st, streams[0].caids), streams[1..])
  }

  /** The entries the sweep keeps, in list order. */
  function Kept(s: seq<EcmStream>): (r: seq<EcmStream>)
    ensures forall e :: e in r ==> !e.toBeRemoved
  {
    if s == [] then []
    else (if s[0].toBeRemoved then [] else [s[0]]) + Kept(s[1..])
  }

  /** The PIDs the sweep closes, in list order. */
  function Closed(s: seq<EcmStream>): (r: seq<int>)
    ensures |r| + |Kept(s)| == |s|
  {
    if s == [] then []
    else (if s[0].toBeRemoved then [s[0].pid] else []) + Closed(s[1..])
  }

  /** The outcome of one caid change: the new list, the PIDs opened and the PIDs closed. */
  datatype Change = Change(ecm: seq<EcmStream>, opens: seq<int>, closed: seq<int>)

  function CaidChangeSpec(cfg: CaConfig, ecm: seq<EcmStream>): Change
  {
    var sc := ScanStreams(cfg, ScanState(Marked(ecm), []), cfg.components);
    Change(Kept(sc.ecm), sc.opens, Closed(sc.ecm))
  }

  function OpenEvents(pids: seq<int>): (r: seq<Event>)
    ensures |r| == |pids|
  {
    seq(|pids|, i requires 0 <= i < |pids| => OpenPid(pids[i]))
  }

  function CloseEvents(pids: seq<int>): (r: seq<Event>)
    ensures |r| == |pids|
  {
    seq(|pids|, i requires 0 <= i < |pids| => ClosePid(pids[i]))
  }

  function Pids(s: seq<EcmStream>): (r: seq<int>)
    ensures |r| == |s|
  {
    seq(|s|, i requires 0 <= i < |s| => s[i].pid)
  }

  // ---------------------------------------------------------------------
  // What the scan keeps true

  /**
   * The scan's invariant over the PIDs tracked before the change: PIDs stay
   * distinct, the list holds the old PIDs and the opened ones, the opened
   * ones are new and distinct and never marked, and every unmarked entry
   * is wanted.
   */
  ghost predicate ScanInv(cfg: CaConfig, old0: set<int>, st: ScanState)
  {
    && DistinctPids(st.ecm)
    && Distinct(st.opens)
    && (forall p :: p in st.opens ==> p !in old0)
    && PidSet(st.ecm) == old0 + Elements(st.opens)
    && (forall e :: e in st.ecm && !e.toBeRemoved ==> e.pid in Wanted(cfg))
    && (forall e :: e in st.ecm && e.pid in st.opens ==> !e.toBeRemoved)
  }

  lemma ScanInvInit(cfg: CaConfig, ecm: seq<EcmStream>)
    requires DistinctPids(ecm)
    ensures ScanInv(cfg, PidSet(ecm), ScanState(Marked(ecm), []))
  {
    var m := Marked(ecm);
    forall e | e in m ensures e.toBeRemoved && e.pid in PidSet(ecm) {
      var i :| 0 <= i < |m| && m[i] == e;
      assert ecm[i] in ecm;
    }
    forall p | p in PidSet(ecm) ensures p in PidSet(m) {
      var e :| e in ecm && e.pid == p;
      var i :| 0 <= i < |ecm| && ecm[i] == e;
      assert m[i] in m;
    }
  }

  /** Unmarking the entry at j keeps the PIDs and adds its PID to the unmarked ones. */
  lemma UnmarkSets(s: seq<EcmStream>, j: nat)
    requires j < |s|
    ensures var s' := s[j := s[j].(toBeRemoved := false)];
      && (forall e :: e in s' ==> e == s'[j] || e in s)
      && PidSet(s') == PidSet(s)
      && Unmarked(s') == Unmarked(s) + {s[j].pid}
  {
    var s' := s[j := s[j].(toBeRemoved := false)];
    forall e | e in s' ensures (e == s'[j] || e in s) && e.pid in PidSet(s) {
      var i :| 0 <= i < |s'| && s'[i] == e;
      assert s[i] in s;
    }
    forall p | p in PidSet(s) ensures p in PidSet(s') {
      var e :| e in s && e.pid == p;
      var i :| 0 <= i < |s| && s[i] == e;
      assert s'[i] in s';
    }
    forall p | p in Unmarked(s) ensures p in Unmarked(s') {
      var e :| e in s && !e.toBeRemoved && e.pid == p;
      var i :| 0 <= i < |s| && s[i] == e;
      assert s'[i] in s';
    }
    assert s'[j] in s';
    forall p | p in Unmarked(s') ensures p in Unmarked(s) + {s[j].pid} {
      var e :| e in s' && !e.toBeRemoved && e.pid == p;
      var i :| 0 <= i < |s'| && s'[i] == e;
      if i != j { assert s[i] in s; }
    }
  }

  /** Unmarking the entry at j keeps the invariant and adds a wanted PID to the unmarked ones. */
  lemma UnmarkKeeps(cfg: CaConfig, old0: set<int>, st: ScanState, j: nat)
    requires ScanInv(cfg, old0, st) && j < |st.ecm| && st.ecm[j].pid in Wanted(cfg)
    ensures ScanInv(cfg, old0, ScanState(st.ecm[j := st.ecm[j].(toBeRemoved := false)], st.opens))
    ensures Unmarked(st.ecm[j := st.ecm[j].(toBeRemoved := false)]) == Unmarked(st.ecm) + {st.ecm[j].pid}
  {
    UnmarkSets(st.ecm, j);
  }

  /** Putting a new wanted PID at the head and opening it keeps the invariant. */
  lemma InsertKeeps(cfg: CaConfig, old0: set<int>, st: ScanState, pid: int)
    requires ScanInv(cfg, old0, st) && IndexOf(st.ecm, pid) < 0 && pid in Wanted(cfg)
    ensures ScanInv(cfg, old0, ScanState([EcmStream(pid, false)] + st.ecm, st.opens + [pid]))
    ensures Unmarked([EcmStream(pid, false)] + st.ecm) == Unmarked(st.ecm) + {pid}
  {
    var head := [EcmStream(pid, false)];
    var e' := head + st.ecm;
    var o' := st.opens + [pid];
    PidSetConcat(head, st.ecm);
    assert PidSet(head) == {pid} && Unmarked(head) == {pid};
    assert pid !in PidSet(st.ecm) by {
      forall e | e in st.ecm ensures e.pid != pid {
        var i :| 0 <= i < |st.ecm| && st.ecm[i] == e;
      }
    }
    assert pid !in st.opens && pid !in old0 by {
      assert pid !in Elements(st.opens);
    }
    assert forall p :: p in o' <==> p in st.opens || p == pid;
    assert Elements(o') == Elements(st.opens) + {pid};
    assert forall e :: e in e' <==> e == head[0] || e in st.ecm;
    DistinctPidsCons(head[0], st.ecm);
    DistinctSnoc(st.opens, pid);
  }

  /**
   * One stream's CA ids keep the invariant, never lose an unmarked PID, and
   * leave the stream's first wanted PID unmarked.
   */
  lemma {:induction false} ScanCaidsKeeps(cfg: CaConfig, old0: set<int>, st: ScanState, stream: Stream, caids: seq<Caid>)
    requires ScanInv(cfg, old0, st)
    requires stream in cfg.components && StreamScanned(cfg, stream)
    requires forall c :: c in caids ==> c in stream.caids
    ensures ScanInv(cfg, old0, ScanCaids(cfg, st, caids))
    ensures Unmarked(st.ecm) <= Unmarked(ScanCaids(cfg, st, caids).ecm)
    ensures FirstWanted(cfg, caids).Some? ==> FirstWanted(cfg, caids).value in Unmarked(ScanCaids(cfg, st, caids).ecm)
    decreases |caids|
  {
    if caids == [] {
    } else if !CaidWanted(cfg, caids[0]) {
      ScanCaidsKeeps(cfg, old0, st, stream, caids[1..]);
    } else {
      var c := caids[0];
      assert c in stream.caids;
      assert c.pid in Wanted(cfg);
      var j := IndexOf(st.ecm, c.pid);
      if j >= 0 {
        UnmarkKeeps(cfg, old0, st, j);
      } else {
        var st' := ScanState([EcmStream(c.pid, false)] + st.ecm, st.opens + [c.pid]);
        InsertKeeps(cfg, old0, st, c.pid);
        ScanCaidsKeeps(cfg, old0, st', stream, caids[1..]);
      }
    }
  }

  /** The whole scan keeps the invariant and leaves the first wanted PID of every scanned stream unmarked. */
  lemma {:induction false} ScanStreamsKeeps(cfg: CaConfig, old0: set<int>, st: ScanState, streams: seq<Stream>)
    requires ScanInv(cfg, old0, st)
    requires forall s :: s in streams ==> s in cfg.components
    ensures ScanInv(cfg, old0, ScanStreams(cfg, st, streams))
    ensures Unmarked(st.ecm) <= Unmarked(ScanStreams(cfg, st, streams).ecm)
    ensures forall s :: s in streams && StreamScanned(cfg, s) && FirstWanted(cfg, s.caids).Some? ==>
              FirstWanted(cfg, s.caids).value in Unmarked(ScanStreams(cfg, st, streams).ecm)
    decreases |streams|
  {
    if streams == [] {
    } else if !StreamScanned(cfg, streams[0]) {
      ScanStreamsKeeps(cfg, old0, st, streams[1..]);
      forall s | s in streams && StreamScanned(cfg, s) ensures s in streams[1..] {
        var i :| 0 <= i < |streams| && streams[i] == s;
        assert i > 0;
        assert streams[1..][i - 1] == s;
      }
    } else {
      var s0 := streams[0];
      var mid := ScanCaids(cfg, st, s0.caids);
      ScanCaidsKeeps(cfg, old0, st, s0, s0.caids);
      ScanStreamsKeeps(cfg, old0, mid, streams[1..]);
      forall s | s in streams && s != s0 ensures s in streams[1..] {
        var i :| 0 <= i < |streams| && streams[i] == s;
        assert i > 0;
        assert streams[1..][i - 1] == s;
      }
    }
  }

  // ---------------------------------------------------------------------
  // The sweep

  /** The pid sets of a concatenation. */
  lemma PidSetConcat(a: seq<EcmStream>, b: seq<EcmStream>)
    ensures PidSet(a + b) == PidSet(a) + PidSet(b)
    ensures Unmarked(a + b) == Unmarked(a) + Unmarked(b)
  {
    assert forall e :: e in a + b <==> e in a || e in b;
  }

  lemma {:induction false} KeptUnmarked(s: seq<EcmStream>)
    ensures forall e :: e in Kept(s) ==> e in s && !e.toBeRemoved
    ensures PidSet(Kept(s)) == Unmarked(s)
    decreases |s|
  {
    if s != [] {
      var head := if s[0].toBeRemoved then [] else [s[0]];
      KeptUnmarked(s[1..]);
      assert s == [s[0]] + s[1..];
      PidSetConcat([s[0]], s[1..]);
      PidSetConcat(head, Kept(s[1..]));
      assert Unmarked([s[0]]) == PidSet(head);
    }
  }

  lemma {:induction false} ClosedMarked(s: seq<EcmStream>)
    ensures forall p :: p in Closed(s) <==> exists e :: e in s && e.toBeRemoved && e.pid == p
    decreases |s|
  {
    if s != [] {
      ClosedMarked(s[1..]);
      assert s == [s[0]] + s[1..];
      assert forall e :: e in s <==> e == s[0] || e in s[1..];
    }
  }

  /** With distinct PIDs the closed PIDs are distinct and so are the kept entries' PIDs. */
  lemma {:induction false} SweepDistinct(s: seq<EcmStream>)
    requires DistinctPids(s)
    ensures Distinct(Closed(s)) && DistinctPids(Kept(s))
    decreases |s|
  {
    if s != [] {
      var rest := s[1..];
      assert DistinctPids(rest);
      SweepDistinct(rest);
      ClosedMarked(rest);
      KeptUnmarked(rest);
      forall e | e in rest ensures e.pid != s[0].pid {
        var i :| 0 <= i < |rest| && rest[i] == e;
        assert s[i + 1] == e;
      }
      if s[0].toBeRemoved {
        assert s[0].pid !in Closed(rest);
        DistinctCons(s[0].pid, Closed(rest));
      } else {
        forall e | e in Kept(rest) ensures e.pid != s[0].pid {
        }
        DistinctPidsCons(s[0], Kept(rest));
      }
    }
  }

  lemma DistinctCons(p: int, s: seq<int>)
    requires Distinct(s) && p !in s
    ensures Distinct([p] + s)
  {
    forall a, b | 0 <= a < b < |[p] + s| ensures ([p] + s)[a] != ([p] + s)[b] {
      if a > 0 {
        assert ([p] + s)[a] == s[a - 1];
      }
      assert ([p] + s)[b] == s[b - 1];
    }
  }

  lemma DistinctSnoc(s: seq<int>, p: int)
    requires Distinct(s) && p !in s
    ensures Distinct(s + [p])
  {
    forall a, b | 0 <= a < b < |s + [p]| ensures (s + [p])[a] != (s + [p])[b] {
      assert (s + [p])[a] == s[a];
      if b < |s| {
        assert (s + [p])[b] == s[b];
      } else {
        assert s[a] in s;
      }
    }
  }

  lemma DistinctPidsCons(e: EcmStream, s: seq<EcmStream>)
    requires DistinctPids(s) && forall x :: x in s ==> x.pid != e.pid
    ensures DistinctPids([e] + s)
  {
    forall a, b | 0 <= a < b < |[e] + s| ensures ([e] + s)[a].pid != ([e] + s)[b].pid {
      if a > 0 {
        assert ([e] + s)[a] == s[a - 1];
      }
      assert ([e] + s)[b] == s[b - 1];
      assert s[b - 1] in s;
    }
  }

  // ---------------------------------------------------------------------
  // What a caid change does

  /**
   * After a caid change over a list of distinct PIDs: nothing is left
   * marked, PIDs stay distinct, each PID tracked before and not found again
   * is closed exactly once and dropped, each new PID is opened exactly once,
   * a PID found again is neither closed nor opened, every tracked PID is
   * wanted, and the first wanted PID of every scanned stream is tracked.
   */
  lemma CaidChangeProperties(cfg: CaConfig, ecm: seq<EcmStream>)
    requires DistinctPids(ecm)
    ensures var r := CaidChangeSpec(cfg, ecm);
      && (forall e :: e in r.ecm ==> !e.toBeRemoved)
      && DistinctPids(r.ecm)
      && Distinct(r.closed) && Elements(r.closed) == PidSet(ecm) - PidSet(r.ecm)
      && Distinct(r.opens) && Elements(r.opens) == PidSet(r.ecm) - PidSet(ecm)
      && PidSet(r.ecm) <= Wanted(cfg)
      && (forall s :: s in cfg.components && StreamScanned(cfg, s) && FirstWanted(cfg, s.caids).Some? ==>
            FirstWanted(cfg, s.caids).value in PidSet(r.ecm))
  {
    var old0 := PidSet(ecm);
    var st0 := ScanState(Marked(ecm), []);
    ScanInvInit(cfg, ecm);
    var sc := ScanStreams(cfg, st0, cfg.components);
    ScanStreamsKeeps(cfg, old0, st0, cfg.components);
    SweepClosed(cfg, old0, sc);
    SweepKept(cfg, old0, sc);
  }

  /** The sweep after a scan: what it closes. */
  lemma SweepClosed(cfg: CaConfig, old0: set<int>, sc: ScanState)
    requires ScanInv(cfg, old0, sc)
    ensures Distinct(Closed(sc.ecm)) && Elements(Closed(sc.ecm)) == old0 - PidSet(Kept(sc.ecm))
  {
    KeptUnmarked(sc.ecm);
    ClosedMarked(sc.ecm);
    SweepDistinct(sc.ecm);
    var u := Unmarked(sc.ecm);
    forall p | p in sc.opens ensures p in u {
      var e :| e in sc.ecm && e.pid == p;
    }
    forall p | p in Closed(sc.ecm) ensures p in old0 && p !in u {
      var e :| e in sc.ecm && e.toBeRemoved && e.pid == p;
      var i :| 0 <= i < |sc.ecm| && sc.ecm[i] == e;
      forall e2 | e2 in sc.ecm && !e2.toBeRemoved ensures e2.pid != p {
        var k :| 0 <= k < |sc.ecm| && sc.ecm[k] == e2;
        assert i != k;
      }
    }
    forall p | p in old0 && p !in u ensures p in Closed(sc.ecm) {
      var e :| e in sc.ecm && e.pid == p;
    }
  }

  /** The sweep after a scan: what it keeps. */
  lemma SweepKept(cfg: CaConfig, old0: set<int>, sc: ScanState)
    requires ScanInv(cfg, old0, sc)
    ensures forall e :: e in Kept(sc.ecm) ==> !e.toBeRemoved
    ensures DistinctPids(Kept(sc.ecm))
    ensures Elements(sc.opens) == PidSet(Kept(sc.ecm)) - old0
    ensures PidSet(Kept(sc.ecm)) == Unmarked(sc.ecm) <= Wanted(cfg)
  {
    KeptUnmarked(sc.ecm);
    SweepDistinct(sc.ecm);
    var u := Unmarked(sc.ecm);
    forall p | p in sc.opens ensures p in u {
      var e :| e in sc.ecm && e.pid == p;
    }
    forall p | p in u ensures p in Wanted(cfg) {
      var e :| e in sc.ecm && !e.toBeRemoved && e.pid == p;
    }
  }

  /** A list with nothing marked closes nothing. */
  lemma {:induction false} ClosedNone(s: seq<EcmStream>)
    requires forall e :: e in s ==> !e.toBeRemoved
    ensures Closed(s) == []
    decreases |s|
  {
    if s != [] {
      assert s[0] in s;
      assert forall e :: e in s[1..] ==> e in s;
      ClosedNone(s[1..]);
    }
  }

  // ---------------------------------------------------------------------
  // The service and its descramblers

  /** An entry of a service's descrambler list: this client's, or another client's. */
  datatype Descrambler = BcasClient(d: BcasDescrambler) | OtherClient(id: int)

  class TvService {
    const isMpegts: bool
    var ca: CaConfig
    var descramblers: seq<Descrambler>

    constructor (isMpegts: bool, ca: CaConfig)
      ensures this.isMpegts == isMpegts && this.ca == ca && descramblers == []
    {
      this.isMpegts := isMpegts;
      this.ca := ca;
      descramblers := [];
    }
  }

  /** The position of this client's descrambler for the service, if the list has one. */
  function FindBcas(list: seq<Descrambler>, svc: TvService): (r: Option<nat>)
    ensures r.Some? ==> r.value < |list| && list[r.value].BcasClient? && list[r.value].d.service == svc
    ensures r.None? ==> forall i :: 0 <= i < |list| ==> !(list[i].BcasClient? && list[i].d.service == svc)
  {
    if list == [] then None
    else if list[0].BcasClient? && list[0].d.service == svc then Some(0)
    else match FindBcas(list[1..], svc)
      case None => None
      case Some(k) => Some(k + 1)
  }

  /** How many of this client's descramblers the list holds for the service. */
  function CountBcas(list: seq<Descrambler>, svc: TvService): (n: nat)
    ensures n <= |list|
  {
    if list == [] then 0
    else (if list[0].BcasClient? && list[0].d.service == svc then 1 else 0) + CountBcas(list[1..], svc)
  }

  /** The list has none of this client's descramblers for the service exactly when the search finds none. */
  lemma {:induction false} FindBcasCount(list: seq<Descrambler>, svc: TvService)
    ensures FindBcas(list, svc).None? <==> CountBcas(list, svc) == 0
  {
    if list != [] {
      FindBcasCount(list[1..], svc);
    }
  }

  /** Starting on a service that has none of this client's descramblers leaves it with exactly one. */
  lemma StartCreatesOne(list: seq<Descrambler>, svc: TvService, d: BcasDescrambler)
    requires FindBcas(list, svc).None? && d.service == svc
    ensures CountBcas([BcasClient(d)] + list, svc) == 1
  {
    FindBcasCount(list, svc);
    assert ([BcasClient(d)] + list)[1..] == list;
  }

  /** The object of every entry of this client in the list. */
  function BcasObjects(list: seq<Descrambler>): set<BcasDescrambler>
  {
    set i | 0 <= i < |list| && list[i].BcasClient? :: list[i].d
  }

  /** The list without the entries of one descrambler. */
  function Without(list: seq<Descrambler>, d: BcasDescrambler): (r: seq<Descrambler>)
    ensures forall i :: 0 <= i < |r| ==> r[i] in list && r[i] != BcasClient(d)
    ensures forall i :: 0 <= i < |list| && list[i] != BcasClient(d) ==> list[i] in r
  {
    if list == [] then []
    else if list[0] == BcasClient(d) then Without(list[1..], d)
    else [list[0]] + Without(list[1..], d)
  }

  class BcasDescrambler {
    const service: TvService
    var ecm: seq<EcmStream>
    var keystate: KeyState
    var events: seq<Event>

    /** The list between operations: distinct PIDs, none marked. */
    ghost predicate Valid()
      reads this
    {
      DistinctPids(ecm) && forall e :: e in ecm ==> !e.toBeRemoved
    }

    constructor (service: TvService)
      ensures Valid() && this.service == service
      ensures ecm == [] && keystate == Init && events == []
    {
      this.service := service;
      ecm := [];
      keystate := Init;
      events := [];
    }

    /**
     * bcas_table_input: drop EMMs, short sections and non-ECM tables;
     * otherwise decode the payload, and either deliver keys[1], keys[0] or
     * set FORBIDDEN (with a log line when the limiter allows one).
     */
    method TableInput(data: seq<Byte>, emm: bool, decode: seq<Byte> -> DecodeResult, limiterAllows: bool)
      modifies this
      ensures ecm == old(ecm)
      ensures GateDrops(data, emm) ==> keystate == old(keystate) && events == old(events)
      ensures !GateDrops(data, emm) ==>
        var payload := EcmPayload(data);
        var res := decode(payload);
        if res.ret != 0 then
          keystate == Forbidden &&
          events == old(events) + [DecodeEcm(payload)] + (if limiterAllows then [DecodeErrorLogged(-res.ret)] else [])
        else
          keystate == old(keystate) && events == old(events) + [DecodeEcm(payload), KeysDelivered(res.key1, res.key0)]
    {
      if emm || |data| < MinEcmLength || data[0] != EcmTableId {
        return;
      }
      var payload := data[8..|data| - 4];
      events := events + [DecodeEcm(payload)];
      var res := decode(payload);
      if res.ret != 0 {
        if limiterAllows {
          events := events + [DecodeErrorLogged(-res.ret)];
        }
        keystate := Forbidden;
        return;
      }
      events := events + [KeysDelivered(res.key1, res.key0)];
    }

    /** bcas_ecm_reset: the keystate becomes UNKNOWN, whatever it was. */
    method EcmReset() returns (r: int)
      modifies this`keystate
      ensures r == 0 && keystate == Unknown
    {
      keystate := Unknown;
      r := 0;
    }

    /** bcas_service_stop: close every tracked PID, from the head, and leave the service's list. */
    method ServiceStop()
      modifies this, service
      ensures ecm == [] && keystate == old(keystate)
      ensures events == old(events) + CloseEvents(Pids(old(ecm)))
      ensures service.descramblers == Without(old(service.descramblers), this)
      ensures service.ca == old(service.ca)
    {
      CloseAll();
      service.descramblers := Without(service.descramblers, this);
    }

    /** The loop of bcas_service_stop: close the head entry and drop it, until the list is empty. */
    method CloseAll()
      modifies this`ecm, this`events
      ensures ecm == [] && events == old(events) + CloseEvents(Pids(old(ecm)))
    {
      ghost var done: seq<EcmStream> := [];
      ghost var all := ecm;
      while ecm != []
        invariant all == done + ecm
        invariant events == old(events) + CloseEvents(Pids(done))
        decreases |ecm|
      {
        PidsSnoc(done, ecm[0]);
        CloseEventsSnoc(Pids(done), ecm[0].pid);
        events := events + [ClosePid(ecm[0].pid)];
        done := done + [ecm[0]];
        ecm := ecm[1..];
      }
      assert done == all;
    }

    /** The marking loop of bcas_caid_change. */
    method MarkAll()
      modifies this`ecm
      ensures ecm == Marked(old(ecm))
    {
      var i := 0;
      while i < |ecm|
        invariant 0 <= i <= |ecm| && |ecm| == |old(ecm)|
        invariant forall k :: 0 <= k < i ==> ecm[k] == old(ecm)[k].(toBeRemoved := true)
        invariant forall k :: i <= k < |ecm| ==> ecm[k] == old(ecm)[k]
      {
        ecm := ecm[i := ecm[i].(toBeRemoved := true)];
        i := i + 1;
      }
    }

    /** The list search of the scan: the first entry with this PID, or -1. */
    method FindPid(pid: int) returns (j: int)
      ensures j == IndexOf(ecm, pid)
    {
      j := 0;
      while j < |ecm| && ecm[j].pid != pid
        invariant 0 <= j <= |ecm|
        invariant forall k :: 0 <= k < j ==> ecm[k].pid != pid
      {
        j := j + 1;
      }
      if j == |ecm| {
        j := -1;
      }
      IndexOfUnique(ecm, pid, j);
    }

    /** The CA-id loop over one stream. */
    method ScanStream(stream: Stream, ghost opens: seq<int>) returns (ghost opens': seq<int>)
      modifies this`ecm, this`events
      ensures ScanState(ecm, opens') == ScanCaids(service.ca, ScanState(old(ecm), opens), stream.caids)
      ensures |opens| <= |opens'| && opens'[..|opens|] == opens
      ensures events == old(events) + OpenEvents(opens'[|opens|..])
    {
      var cfg := service.ca;
      var caids := stream.caids;
      ghost var target := ScanCaids(cfg, ScanState(ecm, opens), caids);
      opens' := opens;
      var i := 0;
      while i < |caids|
        invariant 0 <= i <= |caids|
        invariant ScanCaids(cfg, ScanState(ecm, opens'), caids[i..]) == target
        invariant |opens| <= |opens'| && opens'[..|opens|] == opens
        invariant events == old(events) + OpenEvents(opens'[|opens|..])
      {
        var c := caids[i];
        assert caids[i..][1..] == caids[i + 1..];
        if !CaidWanted(cfg, c) {
          i := i + 1;
          continue;
        }
        var j := FindPid(c.pid);
        if j >= 0 {
          ecm := ecm[j := ecm[j].(toBeRemoved := false)];
          return;
        }
        ecm := [EcmStream(c.pid, false)] + ecm;
        OpenEventsSnoc(opens'[|opens|..], c.pid);
        assert (opens' + [c.pid])[|opens|..] == opens'[|opens|..] + [c.pid];
        opens' := opens' + [c.pid];
        events := events + [OpenPid(c.pid)];
        i := i + 1;
      }
    }

    /** The component loop of bcas_caid_change. */
    method ScanAll() returns (ghost opens: seq<int>)
      modifies this`ecm, this`events
      ensures ScanState(ecm, opens) == ScanStreams(service.ca, ScanState(old(ecm), []), service.ca.components)
      ensures events == old(events) + OpenEvents(opens)
    {
      var cfg := service.ca;
      var comps := cfg.components;
      ghost var target := ScanStreams(cfg, ScanState(ecm, []), comps);
      opens := [];
      var i := 0;
      while i < |comps|
        invariant 0 <= i <= |comps| && service.ca == cfg
        invariant ScanStreams(cfg, ScanState(ecm, opens), comps[i..]) == target
        invariant events == old(events) + OpenEvents(opens)
      {
        assert comps[i..][1..] == comps[i + 1..];
        if StreamScanned(cfg, comps[i]) {
          ghost var before := opens;
          ghost var ev := events;
          opens := ScanStream(comps[i], opens);
          OpenEventsAppend(before, opens[|before|..]);
          assert before + opens[|before|..] == opens;
        }
        i := i + 1;
      }
    }

    /** The sweep loop of bcas_caid_change: close and drop every marked entry. */
    method Sweep()
      modifies this`ecm, this`events
      ensures ecm == Kept(old(ecm))
      ensures events == old(events) + CloseEvents(Closed(old(ecm)))
    {
      hide Kept, Closed;
      ghost var s0 := ecm;
      assert ecm[0..] == ecm;
      var i := 0;
      while i < |ecm|
        invariant 0 <= i <= |ecm|
        invariant ecm[..i] + Kept(ecm[i..]) == Kept(s0)
        invariant events + CloseEvents(Closed(ecm[i..])) == old(events) + CloseEvents(Closed(s0))
        decreases |ecm| - i
      {
        ghost var rest := ecm[i + 1..];
        assert ecm[i..] == [ecm[i]] + rest;
        SweepCons(ecm[i], rest);
        if ecm[i].toBeRemoved {
          CloseEventsAppend([ecm[i].pid], Closed(rest));
          events := events + [ClosePid(ecm[i].pid)];
          ghost var prefix := ecm[..i];
          ecm := ecm[..i] + ecm[i + 1..];
          assert ecm[..i] == prefix && ecm[i..] == rest;
        } else {
          assert ecm[..i + 1] == ecm[..i] + [ecm[i]];
          i := i + 1;
        }
      }
      assert ecm[..i] == ecm;
    }

    /**
     * bcas_caid_change: mark every entry, scan the service's CA ids, then
     * close and drop what was not found again.
     */
    method CaidChange()
      requires Valid()
      modifies this`ecm, this`events
      ensures Valid()
      ensures ecm == CaidChangeSpec(service.ca, old(ecm)).ecm
      ensures events == old(events) + OpenEvents(CaidChangeSpec(service.ca, old(ecm)).opens)
                                    + CloseEvents(CaidChangeSpec(service.ca, old(ecm)).closed)
    {
      CaidChangeProperties(service.ca, ecm);
      MarkAll();
      ghost var opens := ScanAll();
      Sweep();
    }
  }

  /** One step of the sweep's specification functions. */
  lemma SweepCons(e: EcmStream, rest: seq<EcmStream>)
    ensures Kept([e] + rest) == (if e.toBeRemoved then [] else [e]) + Kept(rest)
    ensures Closed([e] + rest) == (if e.toBeRemoved then [e.pid] else []) + Closed(rest)
  {
    assert ([e] + rest)[1..] == rest;
  }

  lemma IndexOfUnique(s: seq<EcmStream>, pid: int, j: int)
    requires -1 <= j < |s|
    requires j >= 0 ==> s[j].pid == pid
    requires forall k :: 0 <= k < |s| && (j < 0 || k < j) ==> s[k].pid != pid
    ensures j == IndexOf(s, pid)
  {
  }

  lemma CloseEventsAppend(a: seq<int>, b: seq<int>)
    ensures CloseEvents(a + b) == CloseEvents(a) + CloseEvents(b)
  {
  }

  lemma CloseEventsSnoc(pids: seq<int>, p: int)
    ensures CloseEvents(pids + [p]) == CloseEvents(pids) + [ClosePid(p)]
  {
  }

  lemma PidsSnoc(s: seq<EcmStream>, e: EcmStream)
    ensures Pids(s + [e]) == Pids(s) + [e.pid]
  {
  }

  lemma OpenEventsSnoc(pids: seq<int>, p: int)
    ensures OpenEvents(pids + [p]) == OpenEvents(pids) + [OpenPid(p)]
  {
  }

  lemma OpenEventsAppend(a: seq<int>, b: seq<int>)
    ensures OpenEvents(a + b) == OpenEvents(a) + OpenEvents(b)
  {
  }

  /**
   * bcas_service_start: on an MPEG-TS service, reuse this client's
   * descrambler for the service if the list has one, otherwise create one
   * at the head of the list (unless allocation fails, in which case nothing
   * happens); then run the PID scan on it.
   */
  method ServiceStart(svc: TvService, allocOk: bool) returns (td: BcasDescrambler?)
    requires forall d :: d in BcasObjects(svc.descramblers) ==> d.Valid()
    modifies svc, BcasObjects(svc.descramblers)
    ensures svc.ca == old(svc.ca)
    ensures !svc.isMpegts ==> td == null && svc.descramblers == old(svc.descramblers)
    ensures svc.isMpegts && FindBcas(old(svc.descramblers), svc).Some? ==>
      var found := old(svc.descramblers)[FindBcas(old(svc.descramblers), svc).value].d;
      && td == found && svc.descramblers == old(svc.descramblers) && td.Valid()
      && td.keystate == old(found.keystate)
      && td.ecm == CaidChangeSpec(svc.ca, old(found.ecm)).ecm
      && td.events == old(found.events) + OpenEvents(CaidChangeSpec(svc.ca, old(found.ecm)).opens)
                                          + CloseEvents(CaidChangeSpec(svc.ca, old(found.ecm)).closed)
    ensures svc.isMpegts && FindBcas(old(svc.descramblers), svc).None? && !allocOk ==>
      td == null && svc.descramblers == old(svc.descramblers)
    ensures svc.isMpegts && FindBcas(old(svc.descramblers), svc).None? && allocOk ==>
      && td != null && fresh(td) && td.service == svc && td.Valid()
      && svc.descramblers == [BcasClient(td)] + old(svc.descramblers)
      && CountBcas(svc.descramblers, svc) == 1
      && td.ecm == CaidChangeSpec(svc.ca, []).ecm && td.keystate == Init
      && td.events == OpenEvents(CaidChangeSpec(svc.ca, []).opens)
    ensures forall d :: d in BcasObjects(old(svc.descramblers)) && d != td ==> unchanged(d)
  {
    if !svc.isMpegts {
      return null;
    }
    var list := svc.descramblers;
    var i := 0;
    while i < |list| && !(list[i].BcasClient? && list[i].d.service == svc)
      invariant 0 <= i <= |list|
      invariant forall k :: 0 <= k < i ==> !(list[k].BcasClient? && list[k].d.service == svc)
    {
      i := i + 1;
    }
    if i < |list| {
      FindBcasAt(list, svc, i);
      td := list[i].d;
      assert td in BcasObjects(list);
    } else {
      if !allocOk {
        return null;
      }
      td := new BcasDescrambler(svc);
      StartCreatesOne(list, svc, td);
      svc.descramblers := [BcasClient(td)] + svc.descramblers;
    }
    td.CaidChange();
    CaidChangeSpecEmpty(svc.ca);
  }

  /** The search loop of bcas_service_start stops where FindBcas points. */
  lemma {:induction false} FindBcasAt(list: seq<Descrambler>, svc: TvService, i: nat)
    requires i < |list| && list[i].BcasClient? && list[i].d.service == svc
    requires forall k :: 0 <= k < i ==> !(list[k].BcasClient? && list[k].d.service == svc)
    ensures FindBcas(list, svc) == Some(i)
    decreases i
  {
    if i > 0 {
      FindBcasAt(list[1..], svc, i - 1);
    }
  }

  /**
   * Tracking A and B when the service's CA ids now name A and C: A is found
   * again and kept as it was, C is put at the head and opened once, B is
   * closed once and dropped.
   */
  lemma MarkSweepExample()
    ensures var a, b, c := 0x101, 0x102, 0x103;
      var cfg := CaConfig([Stream(true, 0x30, [Caid(true, CaidBcas, a)]), Stream(true, 0x31, [Caid(true, CaidBcas, c)])], false, 0, 0);
      CaidChangeSpec(cfg, [EcmStream(a, false), EcmStream(b, false)])
        == Change([EcmStream(c, false), EcmStream(a, false)], [c], [b])
  {
    var a, b, c := 0x101, 0x102, 0x103;
    var cfg := CaConfig([Stream(true, 0x30, [Caid(true, CaidBcas, a)]), Stream(true, 0x31, [Caid(true, CaidBcas, c)])], false, 0, 0);
    var m := Marked([EcmStream(a, false), EcmStream(b, false)]);
    assert m == [EcmStream(a, true), EcmStream(b, true)];
    var s1 := ScanCaids(cfg, ScanState(m, []), cfg.components[0].caids);
    assert IndexOf(m, a) == 0;
    assert s1 == ScanState([EcmStream(a, false), EcmStream(b, true)], []);
    var s2 := ScanCaids(cfg, s1, cfg.components[1].caids);
    assert IndexOf(s1.ecm, c) == -1;
    assert [] + [c] == [c];
    var e2 := [EcmStream(c, false)] + s1.ecm;
    assert e2 == [EcmStream(c, false), EcmStream(a, false), EcmStream(b, true)];
    var cs := cfg.components[1].caids;
    assert cs[1..] == [] && cs[0].pid == c && CaidWanted(cfg, cs[0]);
    assert s2 == ScanCaids(cfg, ScanState(e2, [c]), cs[1..]);
    var comps := cfg.components;
    assert comps[1..][1..] == [];
    assert ScanStreams(cfg, ScanState(m, []), comps) == ScanStreams(cfg, s1, comps[1..]);
    assert ScanStreams(cfg, s1, comps[1..]) == ScanStreams(cfg, s2, []);
    assert e2[1..] == [EcmStream(a, false), EcmStream(b, true)];
    assert e2[1..][1..] == [EcmStream(b, true)];
    assert e2[1..][1..][1..] == [];
    assert Kept(e2[1..][1..]) == [] && Closed(e2[1..][1..]) == [b];
    assert Kept(e2[1..]) == [EcmStream(a, false)] && Closed(e2[1..]) == [b];
    assert Kept(e2) == [EcmStream(c, false), EcmStream(a, false)];
    assert Closed(e2) == [b];
  }

  /** A caid change on an empty list closes nothing. */
  lemma CaidChangeSpecEmpty(cfg: CaConfig)
    ensures CaidChangeSpec(cfg, []).closed == []
  {
    var st0 := ScanState(Marked([]), []);
    ScanInvInit(cfg, []);
    var sc := ScanStreams(cfg, st0, cfg.components);
    ScanStreamsKeeps(cfg, {}, st0, cfg.components);
    forall e | e in sc.ecm ensures !e.toBeRemoved {
      assert e.pid in PidSet(sc.ecm);
    }
    ClosedNone(sc.ecm);
  }
}
