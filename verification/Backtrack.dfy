/** The backtrack of error interrupts: from the disabled L2 channels to the L1 controllers
    to the tiles of their columns, into a payload buffer of bounded size. */
module Backtrack {
  import opened ErrorBroadcast
  import opened BacktrackSpec

  datatype Rc = Ok | Insufficient | InvalidArgs

  /** One entry of the caller's buffer. */
  datatype Payload = Payload(site: Site, event: nat)

  /** The first event of a module's error group. */
  function GroupBase(cfg: Config, site: Site): nat {
    if site.mod == PlMod then (if cfg.gen == Aie then 62 else 64)
    else if site.mod == CoreMod then 48
    else if cfg.memStart <= site.row < cfg.memEnd then 129
    else 87
  }

  function PayloadOf(cfg: Config, e: Err): Payload {
    Payload(e.site, GroupBase(cfg, e.site) + e.index)
  }

  function Payloads(cfg: Config, found: seq<Err>): (r: seq<Payload>)
    ensures |r| == |found|
  {
    seq(|found|, i requires 0 <= i < |found| => PayloadOf(cfg, found[i]))
  }

  predicate InColumn(found: seq<Err>, col: nat) {
    forall e | e in found :: e.site.col == col
  }

  /** What has been found between registers `r0` and `r`: each error once, `entries` for the
      caller, nothing else masked, and nothing outside the columns at hand. */
  ghost predicate Counted(cfg: Config, r0: Regs, r: Regs, found: seq<Err>, entries: seq<Payload>, start: nat, num: nat)
    requires ValidConfig(cfg)
  {
    && Reported(Remaining(cfg, r0), found, Remaining(cfg, r)) && Idle(cfg, r) == Idle(cfg, r0)
    && entries == Payloads(cfg, found)
    && forall e | e in found :: InCols(cfg, start, num, e.site.col)
  }

  lemma MoreCounted(cfg: Config, r0: Regs, r1: Regs, r: Regs, past: seq<Err>, some: seq<Err>,
      entries: seq<Payload>, col: nat, start: nat, num: nat)
    requires ValidConfig(cfg) && Counted(cfg, r0, r1, past, entries, start, num)
    requires Reported(Remaining(cfg, r1), some, Remaining(cfg, r)) && Idle(cfg, r) == Idle(cfg, r1)
    requires InColumn(some, col) && InCols(cfg, start, num, col)
    ensures Counted(cfg, r0, r, past + some, entries + Payloads(cfg, some), start, num)
  {
    ReportedTrans(Remaining(cfg, r0), past, Remaining(cfg, r1), some, Remaining(cfg, r));
    assert Payloads(cfg, past + some) == Payloads(cfg, past) + Payloads(cfg, some);
  }

  lemma CountedOff(cfg: Config, r0: Regs, r: Regs, off: set<(nat, nat)>, found: seq<Err>,
      entries: seq<Payload>, start: nat, num: nat)
    requires ValidConfig(cfg) && Counted(cfg, r0, r, found, entries, start, num)
    ensures Counted(cfg, r0, r.(l2Off := off), found, entries, start, num)
  {
  }

  /** An entry tells which error it is for. */
  lemma PayloadTells(cfg: Config, e: Err, f: Err)
    requires PayloadOf(cfg, e) == PayloadOf(cfg, f)
    ensures e == f
  {
  }

  /** What a driver with argument checks refuses. */
  predicate Refused(cfg: Config, size: nat, start: nat, num: nat) {
    cfg.numCols > cfg.deviceCols || size == 0 || num == 0 || start + num > cfg.deviceCols
  }

  /** The columns of the device. */
  predicate HasColumn(cfg: Config, col: int) {
    0 <= col < cfg.deviceCols
  }

  /** A range of columns is refused exactly if it is empty or has a column that the device does
      not have. The columns of the whole device never are. */
  lemma RefusedIff(cfg: Config, size: nat, start: nat, num: nat)
    ensures Refused(cfg, size, start, num) <==>
      || cfg.numCols > cfg.deviceCols || size == 0 || num == 0
      || exists c :: start <= c < start + num && !HasColumn(cfg, c)
    ensures 0 < cfg.numCols <= cfg.deviceCols && size > 0 ==> !Refused(cfg, size, 0, cfg.deviceCols)
  {
    if num > 0 && start + num > cfg.deviceCols {
      assert !HasColumn(cfg, start + num - 1);
    }
  }

  /** The events of every module's error group, from the event of bit 0 on. They lie in the range
      of error events of their kind of module. */
  lemma EventOf(cfg: Config, e: Err)
    requires ValidConfig(cfg) && e.index < 32
    requires IsShim(e.site) || IsMemTile(cfg, e.site) || IsAieTile(cfg, e.site)
    ensures PayloadOf(cfg, e).site == e.site
    ensures IsShim(e.site) && cfg.gen == Aie ==> PayloadOf(cfg, e).event == 62 + e.index
    ensures IsShim(e.site) && cfg.gen == AieMl ==> PayloadOf(cfg, e).event == 64 + e.index
    ensures IsMemTile(cfg, e.site) ==> PayloadOf(cfg, e).event == 129 + e.index
    ensures IsAieTile(cfg, e.site) && e.site.mod == CoreMod ==> PayloadOf(cfg, e).event == 48 + e.index
    ensures IsAieTile(cfg, e.site) && e.site.mod == MemMod ==> PayloadOf(cfg, e).event == 87 + e.index
  {
  }

  /** The scan looks for errors in exactly the tiles whose broadcasts the setup has routed, in the
      module that ends in the lane of the switch. */
  lemma ScansWhatIsRouted(cfg: Config, tiles: Array, col: nat, row: nat, lane: Switch)
    requires tiles == Array(cfg.memStart, cfg.memEnd, cfg.aieStart, cfg.aieEnd, cfg.requested)
    requires cfg.memEnd <= cfg.aieStart
    ensures InArray(tiles, col, row) <==>
      IsMemTile(cfg, Site(col, row, MemMod)) || IsAieTile(cfg, Site(col, row, ModOf(lane)))
    ensures IsAieTile(cfg, Site(col, row, ModOf(lane))) ==>
      ErrorBroadcast.At(tiles, col, row, lane).mod == if ModOf(lane) == CoreMod then Core else Mem
  {
  }

  /** The registers of the partition and the caller's error metadata. */
  class Backtracker {
    const cfg: Config
    var regs: Regs
    var meta: Meta
    var errorCount: nat
    ghost var next: Next

    /** The entries `from` on of the buffer are the errors found. */
    ghost predicate Stored(payload: array<Payload>, from: nat, found: seq<Err>)
      reads this, payload
    {
      from + |found| == errorCount <= payload.Length && payload[from..errorCount] == Payloads(cfg, found)
    }

    /** The metadata of an interrupted scan. */
    ghost predicate StoppedAt(l1: L1, row: nat, mod: Module)
      reads this
    {
      meta == Meta(true, row, mod) && next == At(l1, row, mod)
    }

    method Store(payload: array<Payload>, e: Err, ghost from: nat, ghost found: seq<Err>)
      requires Stored(payload, from, found) && errorCount < payload.Length
      modifies this`errorCount, payload
      ensures Stored(payload, from, found + [e]) && errorCount == old(errorCount) + 1
      ensures payload[..from] == old(payload[..from])
    {
      ghost var was := payload[from..errorCount];
      payload[errorCount] := PayloadOf(cfg, e);
      errorCount := errorCount + 1;
      assert payload[from..errorCount] == was + [PayloadOf(cfg, e)];
    }

    /** Scans the error group of one module. */
    method BacktrackTile(site: Site, payload: array<Payload>, ghost l1: L1) returns (rc: Rc, ghost found: seq<Err>)
      requires ValidConfig(cfg) && errorCount < payload.Length
      modifies this, payload
      ensures rc != InvalidArgs && Scanned(cfg, old(regs), site, found, rc == Ok, regs) && Ascending(found)
      ensures Stored(payload, old(errorCount), found) && payload[..old(errorCount)] == old(payload[..errorCount])
      ensures rc == Ok ==> errorCount < payload.Length && meta == old(meta) && next == old(next)
      ensures rc == Insufficient ==> errorCount == payload.Length && StoppedAt(l1, site.row, site.mod)
    {
      hide Scanned, FoundUpTo, Ascending, ValidConfig;
      found := [];
      if site !in regs.group {
        ScanNothing(cfg, regs, site);
        return Ok, found;
      }
      var size := payload.Length - errorCount;
      var value := SiteBits(regs.enabled, site);
      var errorsMap := value;
      assert errorsMap == value - Elems(found);
      FoundNone(cfg, regs, site);
      for index := 0 to 32
        invariant size == payload.Length - errorCount > 0
        invariant regs == old(regs) && meta == old(meta) && next == old(next)
        invariant Stored(payload, old(errorCount), found) && payload[..old(errorCount)] == old(payload[..errorCount])
        invariant errorsMap == value - Elems(found)
        invariant FoundUpTo(cfg, regs, site, found, index)
      {
        var e := Err(site, index);
        FoundNext(cfg, regs, site, found, index);
        if e in value && e in cfg.active {
          errorsMap := errorsMap - {e};
          Store(payload, e, old(errorCount), found);
          assert Elems(found + [e]) == Elems(found) + {e};
          found := found + [e];
          size := size - 1;
          if size == 0 {
            regs := regs.(enabled := (regs.enabled - value) + errorsMap);
            meta, next := Meta(true, site.row, site.mod), At(l1, site.row, site.mod);
            ScanIs(cfg, old(regs), site, found, index + 1, false, regs);
            return Insufficient, found;
          }
        }
      }
      regs := regs.(enabled := (regs.enabled - value) + errorsMap, group := regs.group - {site});
      ScanIs(cfg, old(regs), site, found, 32, true, regs);
      return Ok, found;
    }

    /** What a scan of several modules below `l1` amounts to. */
    twostate predicate Advanced(payload: array<Payload>, l1: L1, cut: nat, rc: Rc, found: seq<Err>)
      reads this, payload
    {
      && rc != InvalidArgs && InColumn(found, l1.col)
      && Reported(Remaining(cfg, old(regs)), found, Remaining(cfg, regs)) && Kept(cfg, old(regs), regs, l1, cut)
      && Stored(payload, old(errorCount), found) && payload[..old(errorCount)] == old(payload[..errorCount])
      && (rc == Ok ==> errorCount < payload.Length && meta == old(meta) && next == old(next))
      && (rc == Insufficient ==> errorCount == payload.Length && next.At? && StoppedAt(l1, next.row, next.mod))
    }

    twostate lemma Nothing(payload: array<Payload>, new l1: L1, new cut: nat)
      requires regs == old(regs) && errorCount == old(errorCount) < payload.Length && meta == old(meta)
      requires next == old(next)
      requires payload[..] == old(payload[..])
      ensures Advanced(payload, l1, cut, Ok, [])
    {
      assert Elems([]) == {} && Remaining(cfg, regs) - {} == Remaining(cfg, regs);
      assert payload[..errorCount] == payload[..][..errorCount];
    }

    /** One module after another. */
    method ScanNext(site: Site, payload: array<Payload>, ghost l1: L1, ghost cut: nat,
                    ghost r0: Regs, ghost from: nat, ghost past: seq<Err>)
      returns (rc: Rc, ghost found: seq<Err>)
      requires ValidConfig(cfg) && errorCount < payload.Length
      requires Reported(Remaining(cfg, r0), past, Remaining(cfg, regs)) && Kept(cfg, r0, regs, l1, cut)
      requires Stored(payload, from, past) && InColumn(past, l1.col) && site.col == l1.col
      modifies this, payload
      ensures rc != InvalidArgs && past <= found && InColumn(found, l1.col)
      ensures Reported(Remaining(cfg, r0), found, Remaining(cfg, regs)) && Kept(cfg, r0, regs, l1, cut)
      ensures Stored(payload, from, found) && payload[..from] == old(payload[..from])
      ensures Scanned(cfg, old(regs), site, found[|past|..], rc == Ok, regs)
      ensures rc == Ok ==> errorCount < payload.Length && meta == old(meta) && next == old(next)
      ensures rc == Insufficient ==> errorCount == payload.Length && StoppedAt(l1, site.row, site.mod)
    {
      ghost var some: seq<Err>;
      ghost var was := payload[..errorCount];
      rc, some := BacktrackTile(site, payload, l1);
      found := past + some;
      assert found[|past|..] == some;
      ReportedTrans(Remaining(cfg, r0), past, Remaining(cfg, old(regs)), some, Remaining(cfg, regs));
      ScannedKeeps(cfg, old(regs), site, some, rc == Ok, regs, l1, cut);
      KeptTrans(cfg, r0, old(regs), regs, l1, cut, cut);
      Joined(payload[..], was, from, errorCount, past, some);
    }

    lemma Joined(b: seq<Payload>, was: seq<Payload>, from: nat, to: nat, past: seq<Err>,
        some: seq<Err>)
      requires from + |past| == |was| && |was| + |some| == to <= |b| && was == b[..|was|]
      requires was[from..] == Payloads(cfg, past) && b[|was|..to] == Payloads(cfg, some)
      ensures b[from..to] == Payloads(cfg, past + some) && b[..from] == was[..from]
    {
      assert b[from..to] == b[from..|was|] + b[|was|..to];
      assert b[from..|was|] == was[from..];
      assert Payloads(cfg, past + some) == Payloads(cfg, past) + Payloads(cfg, some);
    }

    /** Scans the memory tiles of a column. */
    method BacktrackMemTiles(l1: L1, payload: array<Payload>) returns (rc: Rc, ghost found: seq<Err>)
      requires ValidConfig(cfg) && errorCount < payload.Length && Grouped(cfg, regs, l1.col)
      modifies this, payload
      ensures Advanced(payload, l1, cfg.aieStart, rc, found)
      ensures regs.l1Shim == old(regs.l1Shim) && regs.l1Bcast == old(regs.l1Bcast)
      ensures rc == Ok ==> QuietRows(cfg, regs, l1.col, cfg.memStart, cfg.memEnd, MemMod)
      ensures rc == Insufficient ==> next.mod == MemMod && IsMemTile(cfg, Site(l1.col, next.row, MemMod))
      ensures rc == Insufficient ==> RemainedAt(cfg, old(regs), Site(l1.col, next.row, MemMod))
    {
      rc, found := Ok, [];
      Nothing(payload, l1, cfg.aieStart);
      for row := cfg.memStart to cfg.memEnd
        invariant rc == Ok && Advanced(payload, l1, cfg.aieStart, rc, found) && Grouped(cfg, regs, l1.col)
        invariant regs.l1Shim == old(regs.l1Shim) && regs.l1Bcast == old(regs.l1Bcast)
        invariant QuietRows(cfg, regs, l1.col, cfg.memStart, row, MemMod)
      {
        if (l1.col, row) !in cfg.requested {
          continue;
        }
        ghost var r, past := regs, found;
        var site := Site(l1.col, row, MemMod);
        rc, found := ScanNext(site, payload, l1, cfg.aieStart, old(regs), old(errorCount), found);
        if rc == Insufficient {
          FoundRemained(cfg, old(regs), r, site, found[|past|..], regs);
          return;
        }
        RowDone(cfg, r, found[|past|..], regs, l1.col, cfg.memStart, row, MemMod);
        regs := regs.(bcast := regs.bcast - {Site(l1.col, row, MemMod)});
      }
    }

    /** Scans the array tiles of a column upwards, as far as the broadcast came from. */
    method BacktrackAieTiles(l1: L1, payload: array<Payload>) returns (rc: Rc, ghost found: seq<Err>, ghost stop: nat)
      requires ValidConfig(cfg) && errorCount < payload.Length && Grouped(cfg, regs, l1.col)
      modifies this, payload
      ensures Advanced(payload, l1, if rc == Insufficient && next.At? then next.row else cfg.aieEnd, rc, found)
      ensures regs.l1Shim == old(regs.l1Shim) && regs.l1Bcast == old(regs.l1Bcast)
      ensures cfg.aieStart <= stop <= cfg.aieEnd && QuietRows(cfg, regs, l1.col, cfg.aieStart, stop, ModOf(l1.sw))
      ensures rc == Ok && stop < cfg.aieEnd ==>
        cfg.aieStart < stop && (l1.col, stop - 1) in cfg.requested && EndsAt(cfg, old(regs), old(meta), l1, stop - 1)
      ensures rc == Insufficient ==> stop == next.row < cfg.aieEnd && next.mod == ModOf(l1.sw)
      ensures rc == Insufficient ==>
        (l1.col, next.row) in cfg.requested && RemainedAt(cfg, old(regs), Site(l1.col, next.row, next.mod))
    {
      hide Scanned, Kept, Reported;
      rc, found := Ok, [];
      Nothing(payload, l1, cfg.aieStart);
      stop := cfg.aieStart;
      for row := cfg.aieStart to cfg.aieEnd
        invariant rc == Ok && stop == row && Advanced(payload, l1, row, rc, found) && Grouped(cfg, regs, l1.col)
        invariant regs.l1Shim == old(regs.l1Shim) && regs.l1Bcast == old(regs.l1Bcast)
        invariant QuietRows(cfg, regs, l1.col, cfg.aieStart, row, ModOf(l1.sw))
      {
        var mod := if l1.sw == A then CoreMod else MemMod;
        if (l1.col, row) !in cfg.requested {
          KeptMore(cfg, old(regs), regs, l1, row, row + 1);
          stop := row + 1;
          continue;
        }
        ghost var r, past := regs, found;
        var site := Site(l1.col, row, mod);
        KeptRest(cfg, old(regs), regs, l1, row);
        rc, found := ScanNext(site, payload, l1, row, old(regs), old(errorCount), found);
        if rc == Insufficient {
          FoundRemained(cfg, old(regs), r, site, found[|past|..], regs);
          QuietRowsStay(cfg, r, regs, l1.col, cfg.aieStart, row, mod);
          return;
        }
        RowDone(cfg, r, found[|past|..], regs, l1.col, cfg.aieStart, row, mod);
        stop := row + 1;
        KeptBcast(cfg, old(regs), regs, l1, row);
        if !(site in regs.bcast || (meta.valid && meta.mod == mod && meta.row > row)) {
          KeptMore(cfg, old(regs), regs, l1, row, cfg.aieEnd);
          return;
        }
        KeptCleared(cfg, old(regs), regs, l1, row);
        regs := regs.(bcast := regs.bcast - {site});
      }
    }

    /** Two scans in a row, taken together. */
    twostate lemma Together(payload: array<Payload>, new r: Regs, new r1: Regs, new l1: L1, new cut: nat, new cut': nat,
        new was: seq<Payload>, new from: nat, new past: seq<Err>, new some: seq<Err>)
      requires Reported(Remaining(cfg, r), past, Remaining(cfg, r1)) && Kept(cfg, r, r1, l1, cut) && cut <= cut'
      requires Reported(Remaining(cfg, r1), some, Remaining(cfg, regs)) && Kept(cfg, r1, regs, l1, cut')
      requires from + |past| == |was| && was[from..] == Payloads(cfg, past)
      requires Stored(payload, |was|, some) && payload[..|was|] == was
      ensures Reported(Remaining(cfg, r), past + some, Remaining(cfg, regs)) && Kept(cfg, r, regs, l1, cut')
      ensures Stored(payload, from, past + some) && payload[..from] == was[..from]
    {
      ReportedTrans(Remaining(cfg, r), past, Remaining(cfg, r1), some, Remaining(cfg, regs));
      KeptTrans(cfg, r, r1, regs, l1, cut, cut');
      Joined(payload[..], was, from, errorCount, past, some);
    }

    /** The first half of a scan below an L1 controller: the shim tile's own errors. */
    method BacktrackShim(l1: L1, payload: array<Payload>) returns (rc: Rc, ghost found: seq<Err>)
      requires ValidConfig(cfg) && errorCount < payload.Length && Grouped(cfg, regs, l1.col)
      modifies this, payload
      ensures Advanced(payload, l1, cfg.aieStart, rc, found)
      ensures regs.l1Bcast == old(regs.l1Bcast) && regs.bcast == old(regs.bcast) && l1 !in regs.l1Shim
      ensures rc == Ok && ShimGate(old(regs), meta, l1) ==> Quiet(cfg, regs, ShimSite(l1))
      ensures rc == Insufficient ==> ShimGate(old(regs), old(meta), l1) && next.row == 0 && next.mod == PlMod
    {
      rc, found := Ok, [];
      Nothing(payload, l1, cfg.aieStart);
      if l1 in regs.l1Shim || (meta.valid && meta.mod == PlMod && meta.row == 0) {
        regs := regs.(l1Shim := regs.l1Shim - {l1});
        ghost var r := regs;
        rc, found := ScanNext(ShimSite(l1), payload, l1, cfg.aieStart, old(regs), old(errorCount), []);
        assert found[0..] == found;
        if rc == Ok {
          RowDone(cfg, r, found, regs, l1.col, 0, 0, PlMod);
          assert rc == Ok && ShimSite(l1) == Site(l1.col, 0, PlMod);
        }
      }
    }

    /** The second half: the tiles of the column. */
    method BacktrackArray(l1: L1, payload: array<Payload>) returns (rc: Rc, ghost found: seq<Err>, ghost stop: nat)
      requires ValidConfig(cfg) && errorCount < payload.Length && Grouped(cfg, regs, l1.col)
      modifies this, payload
      ensures var cut := if rc == Insufficient && next.At? then CutAt(cfg, next.row) else cfg.aieEnd;
        Advanced(payload, l1, cut, rc, found)
      ensures regs.l1Shim == old(regs.l1Shim)
      ensures rc == Ok ==> ArraySwept(cfg, old(regs), regs, meta, l1, stop)
      ensures rc == Insufficient ==> ArrayStop(cfg, old(regs), regs, l1, next.row, next.mod)
    {
      stop := 0;
      regs := regs.(l1Bcast := regs.l1Bcast - {l1});
      ghost var r := regs;
      rc, found := BacktrackMemTiles(l1, payload);
      if rc == Insufficient {
        RemainedBefore(cfg, old(regs), r, Site(l1.col, next.row, MemMod));
        KeptTrans(cfg, old(regs), r, regs, l1, cfg.aieStart, cfg.aieStart);
        return;
      }
      ghost var r1, was, past, some := regs, payload[..errorCount], found, found;
      rc, some, stop := BacktrackAieTiles(l1, payload);
      ghost var cut := if rc == Insufficient then next.row else cfg.aieEnd;
      found := past + some;
      KeptTrans(cfg, old(regs), r, r1, l1, cfg.aieStart, cfg.aieStart);
      Together(payload, old(regs), r1, l1, cfg.aieStart, cut, was, old(errorCount), past, some);
      QuietRowsStay(cfg, r1, regs, l1.col, cfg.memStart, cfg.memEnd, MemMod);
      if rc == Insufficient {
        RemainedBefore(cfg, old(regs), r1, Site(l1.col, next.row, next.mod));
      } else {
        SweptBefore(cfg, old(regs), r1, regs, meta, l1, stop);
      }
    }

    /** Scans everything below one L1 controller. Either its channel is done with, or the
        next call will go on where this one stopped. */
    method BacktrackIntrCtrlL1(l1: L1, payload: array<Payload>, ghost chans: set<(nat, nat)>, ghost start: nat,
        ghost num: nat)
      returns (rc: Rc, ghost found: seq<Err>)
      requires ValidConfig(cfg) && errorCount < payload.Length && Ready(cfg, regs, chans, next, meta, l1, start, num)
      modifies this, payload
      ensures rc != InvalidArgs && Reported(Remaining(cfg, old(regs)), found, Remaining(cfg, regs))
      ensures InColumn(found, l1.col) && Idle(cfg, regs) == Idle(cfg, old(regs))
      ensures errorCount == old(errorCount) + |found| <= payload.Length
      ensures payload[..errorCount] == old(payload[..errorCount]) + Payloads(cfg, found)
      ensures regs.l2Off == old(regs.l2Off) && regs.l2Status == old(regs.l2Status)
      ensures rc == Ok ==> errorCount < payload.Length && next == Nowhere
      ensures rc == Ok ==> AllSignalled(cfg, regs, chans - {Channel(cfg, l1)}, Nowhere, start, num)
      ensures rc == Insufficient ==> errorCount == payload.Length && next.At?
      ensures rc == Insufficient ==> Ready(cfg, regs, chans, next, meta, l1, start, num)
    {
      hide AllSignalled, NextOk, Kept, Reported, Quiet, ArraySwept, ArrayStop;
      ghost var r0, next0, meta0 := regs, next, meta;
      ReadyGroups(cfg, regs, chans, next, meta, l1, start, num);
      var bcast := l1 in regs.l1Bcast;
      ghost var entries := payload[..errorCount];
      rc, found := BacktrackShim(l1, payload);
      assert payload[..errorCount] == entries + Payloads(cfg, found);
      KeptRest(cfg, r0, regs, l1, cfg.aieStart);
      if rc == Insufficient {
        ShimStopped(cfg, r0, regs, chans, next0, meta0, l1, start, num);
        return;
      }
      KeptMore(cfg, r0, regs, l1, cfg.aieStart, cfg.aieEnd);
      if !(bcast || (meta.valid && meta.mod != PlMod && meta.row >= 0)) {
        L1Done(cfg, r0, regs, chans, next0, meta0, l1, 0, start, num);
        next := Nowhere;
        return;
      }
      ghost var r1, was, past := regs, payload[..errorCount], found;
      ghost var some, stop;
      rc, some, stop := BacktrackArray(l1, payload);
      found := past + some;
      ghost var cut := if rc == Insufficient then CutAt(cfg, next.row) else cfg.aieEnd;
      Together(payload, r0, r1, l1, cfg.aieStart, cut, was, old(errorCount), past, some);
      KeptRest(cfg, r0, regs, l1, cut);
      if ShimGate(r0, meta0, l1) {
        KeptQuiet(cfg, r1, regs, l1, cut, ShimSite(l1));
      }
      assert payload[..errorCount] == entries + Payloads(cfg, found);
      if rc == Insufficient {
        StopBefore(cfg, r0, r1, regs, l1, next.row, next.mod);
        ArrayStopped(cfg, r0, regs, chans, next0, meta0, l1, next.row, next.mod, start, num);
      } else {
        SweptBefore(cfg, r0, r1, regs, meta, l1, stop);
        L1Done(cfg, r0, regs, chans, next0, meta0, l1, stop, start, num);
        next := Nowhere;
      }
    }

    /** The errors found so far in a call that began with registers `r0`, and the entries the
        caller gets for them. */
    ghost predicate Tallied(payload: array<Payload>, r0: Regs, found: seq<Err>, start: nat, num: nat)
      requires ValidConfig(cfg)
      reads this, payload
    {
      && errorCount <= payload.Length
      && Counted(cfg, r0, regs, found, payload[..errorCount], start, num)
    }

    /** Enables channels of one L2 controller; `upTo` is the first that stays as it is. */
    method L2Enable(l2: nat, channels: set<nat>, ghost upTo: nat)
      requires channels == Below(regs.l2Off, l2, upTo)
      modifies this`regs
      ensures regs == old(regs).(l2Off := Without(old(regs).l2Off, l2, (l2, upTo)))
    {
      ghost var off := regs.l2Off;
      regs := regs.(l2Off := regs.l2Off - set i | i in channels :: (l2, i));
      assert regs.l2Off == Without(off, l2, (l2, upTo));
    }

    /** The scan stopped below the L1 controller of this channel. */
    ghost predicate StoppedIn(ch: (nat, nat))
      requires ValidConfig(cfg)
      reads this
    {
      next.At? && next.l1.col < cfg.numCols && Channel(cfg, next.l1) == ch
    }

    /** One channel of an L2 controller: the L1 controller behind it, if it is disabled. */
    method BacktrackChannel(l2: nat, index: nat, payload: array<Payload>, ghost start: nat, ghost num: nat,
                            ghost r0: Regs, ghost past: seq<Err>)
      returns (rc: Rc, ghost found: seq<Err>)
      requires ValidConfig(cfg) && errorCount < payload.Length && OnlySources(cfg, regs.l2Off)
      requires start <= l2 < start + num
      requires OnCourse(cfg, regs, Pend(regs.l2Off, start + num, l2, index), next, meta, start, num)
      requires Tallied(payload, r0, past, start, num)
      modifies this, payload
      ensures rc != InvalidArgs && Tallied(payload, r0, found, start, num)
      ensures regs.l2Off == old(regs).l2Off
      ensures rc == Ok ==> errorCount < payload.Length
      ensures rc == Ok ==> OnCourse(cfg, regs, Pend(regs.l2Off, start + num, l2, index + 1), next, meta, start, num)
      ensures rc == Insufficient ==> (l2, index) in regs.l2Off && errorCount == payload.Length && StoppedIn((l2, index))
      ensures rc == Insufficient ==>
        OnCourse(cfg, regs, Pend(regs.l2Off, start + num, l2, index), next, meta, start, num)
    {
      hide OnCourse, Counted, Ready, AllSignalled, L1Of;
      ghost var ch, chans := (l2, index), Pend(regs.l2Off, start + num, l2, index);
      PendNext(regs.l2Off, start + num, l2, index);
      if (l2, index) !in regs.l2Off {
        return Ok, past;
      }
      ghost var r1, was, some := regs, payload[..errorCount], past;
      ChannelReady(cfg, regs, chans, next, meta, ch, start, num);
      L1OfIs(cfg, ch);
      var l1 := L1Of(cfg, (l2, index));
      rc, some := BacktrackIntrCtrlL1(l1, payload, chans, start, num);
      found := past + some;
      MoreCounted(cfg, r0, r1, regs, past, some, was, l1.col, start, num);
      if rc == Insufficient {
        ChannelLeft(cfg, regs, chans, next, meta, ch, start, num);
      } else {
        ChannelDone(cfg, regs, chans - {ch}, meta, start, num);
      }
    }

    /** Scans the disabled channels of one L2 controller in ascending order. `done` collects
        those that were finished before channel `stop`. */
    method ScanChannels(l2: nat, payload: array<Payload>, ghost start: nat, ghost num: nat,
                        ghost r0: Regs, ghost past: seq<Err>)
      returns (rc: Rc, ghost found: seq<Err>, done: set<nat>, ghost stop: nat)
      requires ValidConfig(cfg) && errorCount < payload.Length && OnlySources(cfg, regs.l2Off)
      requires start <= l2 < start + num
      requires OnCourse(cfg, regs, Pend(regs.l2Off, start + num, l2, 0), next, meta, start, num)
      requires Tallied(payload, r0, past, start, num)
      modifies this, payload
      ensures rc != InvalidArgs && Tallied(payload, r0, found, start, num)
      ensures regs.l2Off == old(regs).l2Off && done == Below(regs.l2Off, l2, stop)
      ensures OnCourse(cfg, regs, Pend(regs.l2Off, start + num, l2, stop), next, meta, start, num)
      ensures rc == Ok ==> stop == 6 && errorCount < payload.Length
      ensures rc == Insufficient ==> errorCount == payload.Length && StoppedIn((l2, stop))
    {
      hide OnCourse, Counted, OnlySources, Pend, Below;
      ghost var off := regs.l2Off;
      done := {};
      stop := 0;
      rc, found := Ok, past;
      for index := 0 to 6
        invariant rc == Ok && stop == index && errorCount < payload.Length && regs.l2Off == off
        invariant OnCourse(cfg, regs, Pend(off, start + num, l2, index), next, meta, start, num)
        invariant Tallied(payload, r0, found, start, num)
        invariant done == Below(off, l2, index)
      {
        rc, found := BacktrackChannel(l2, index, payload, start, num, r0, found);
        if rc == Insufficient {
          return;
        }
        BelowNext(off, l2, index);
        if (l2, index) in regs.l2Off {
          done := done + {index};
        }
        stop := index + 1;
      }
    }

    /** The disabled channels of one L2 controller. They are enabled again as far as the scan
        gets. */
    method BacktrackL2(l2: nat, payload: array<Payload>, ghost start: nat, ghost num: nat,
                       ghost r0: Regs, ghost past: seq<Err>)
      returns (rc: Rc, ghost found: seq<Err>)
      requires ValidConfig(cfg) && errorCount < payload.Length && OnlySources(cfg, regs.l2Off)
      requires start <= l2 < start + num
      requires OnCourse(cfg, regs, Pend(regs.l2Off, start + num, l2, 0), next, meta, start, num)
      requires Tallied(payload, r0, past, start, num)
      modifies this, payload
      ensures rc != InvalidArgs && Tallied(payload, r0, found, start, num)
      ensures rc == Ok ==> errorCount < payload.Length && regs.l2Off == Without(old(regs).l2Off, l2, (l2 + 1, 0))
      ensures rc == Ok ==> OnCourse(cfg, regs, Pend(old(regs).l2Off, start + num, l2 + 1, 0), next, meta, start, num)
      ensures rc == Insufficient ==> errorCount == payload.Length && next.At? && next.l1.col < cfg.numCols
      ensures rc == Insufficient ==> var ch := Channel(cfg, next.l1);
        && ch.0 == l2 && regs.l2Off == Without(old(regs).l2Off, l2, ch)
        && OnCourse(cfg, regs, Pend(old(regs).l2Off, start + num, ch.0, ch.1), next, meta, start, num)
    {
      hide OnCourse, Counted;
      ghost var off, stop := regs.l2Off, 0;
      var enable;
      rc, found, enable, stop := ScanChannels(l2, payload, start, num, r0, past);
      OnCourseOff(cfg, regs, Without(off, l2, (l2, stop)), Pend(off, start + num, l2, stop), next, meta, start, num);
      CountedOff(cfg, r0, regs, Without(off, l2, (l2, stop)), found, payload[..errorCount], start, num);
      L2Enable(l2, enable, stop);
      if rc == Ok {
        PendLast(cfg, off, start + num, l2);
        AllEnabled(cfg, off, l2);
        assert regs.l2Off == Without(off, l2, (l2 + 1, 0));
      }
    }

    /** One call of the backtrack over the L2 controllers of columns [start, start + num). */
    method BacktrackErrorInterrupts(start: nat, num: nat, payload: array<Payload>)
      returns (rc: Rc, ghost found: seq<Err>)
      requires ValidConfig(cfg) && CallReady(cfg, regs, next, meta, start, num)
      requires !cfg.checks ==> payload.Length > 0
      modifies this, payload
      ensures rc == InvalidArgs <==>
        && cfg.checks
        && (|| cfg.numCols > cfg.deviceCols || payload.Length == 0 || num == 0
            || exists c :: start <= c < start + num && !HasColumn(cfg, c))
      ensures rc == InvalidArgs ==> found == [] && regs == old(regs) && meta == old(meta) && next == old(next)
      ensures rc != InvalidArgs ==> Tallied(payload, old(regs), found, start, num)
      ensures rc == Ok ==> |found| < payload.Length && !meta.valid && next == Nowhere
      ensures rc == Ok ==> forall e | e in Remaining(cfg, regs) :: !InCols(cfg, start, num, e.site.col)
      ensures rc == Ok ==> OnlySources(cfg, regs.l2Off)
      ensures rc == Ok ==> forall ch :: ch in regs.l2Off <==> ch in old(regs).l2Off && !(start <= ch.0 < start + num)
      ensures rc == Insufficient ==> |found| == payload.Length && CallReady(cfg, regs, next, meta, start, num)
      ensures rc == Insufficient ==> next.At? && next.l1.col < cfg.numCols
      ensures rc == Insufficient ==> regs.l2Off == Without(old(regs).l2Off, start, Channel(cfg, next.l1))
    {
      found := [];
      RefusedIff(cfg, payload.Length, start, num);
      if cfg.checks && Refused(cfg, payload.Length, start, num) {
        return InvalidArgs, found;
      }
      errorCount := 0;
      assert Elems(found) == {} && Remaining(cfg, regs) - {} == Remaining(cfg, regs);
      ghost var l2;
      rc, found, l2 := ScanControllers(start, num, payload);
      if rc == Ok {
        assert Pend(regs.l2Off, start + num, l2, 0) == {};
        NothingLeft(cfg, regs, next, meta, start, num);
        EndOfRange(cfg, old(regs).l2Off, start, num, l2);
        meta := meta.(valid := false);
      }
    }

    method ScanControllers(start: nat, num: nat, payload: array<Payload>)
      returns (rc: Rc, ghost found: seq<Err>, ghost at: nat)
      requires ValidConfig(cfg) && CallReady(cfg, regs, next, meta, start, num)
      requires errorCount == 0 < payload.Length && Tallied(payload, regs, [], start, num)
      modifies this, payload
      ensures rc != InvalidArgs && Tallied(payload, old(regs), found, start, num)
      ensures rc == Ok ==> errorCount < payload.Length && start + num <= at
      ensures rc == Ok ==> regs.l2Off == Without(old(regs).l2Off, start, (at, 0))
      ensures rc == Ok ==> OnCourse(cfg, regs, Pend(regs.l2Off, start + num, at, 0), next, meta, start, num)
      ensures rc == Ok ==> forall k | start + num <= k < at :: !IsNoc(k)
      ensures rc == Insufficient ==> errorCount == payload.Length && next.At? && next.l1.col < cfg.numCols
      ensures rc == Insufficient ==> regs.l2Off == Without(old(regs).l2Off, start, Channel(cfg, next.l1))
      ensures rc == Insufficient ==> CallReady(cfg, regs, next, meta, start, num)
    {
      ghost var off := regs.l2Off;
      found, rc, at := [], Ok, start;
      var l2 := if IsNoc(start) then start else NextNoc(start);
      PendSkip(cfg, off, start + num, start, l2);
      assert Without(off, start, (l2, 0)) == off;
      while l2 < start + num
        invariant start <= l2 && IsNoc(l2) && errorCount < payload.Length
        invariant forall k | start + num <= k < l2 :: !IsNoc(k)
        invariant regs.l2Off == Without(off, start, (l2, 0)) && OnlySources(cfg, regs.l2Off)
        invariant OnCourse(cfg, regs, Pend(regs.l2Off, start + num, l2, 0), next, meta, start, num)
        invariant Tallied(payload, old(regs), found, start, num)
      {
        rc, found := BacktrackL2(l2, payload, start, num, old(regs), found);
        if rc == Insufficient {
          CourseStopped(cfg, regs, off, start, num, Channel(cfg, next.l1), next, meta);
          return;
        }
        CourseNext(cfg, regs, off, start, num, l2, next, meta);
        l2 := NextNoc(l2);
      }
      rc, at := Ok, l2;
    }

    /** The first response to an interrupt: disables the raised channels of the L2 controllers
        in columns [start, start + num). */
    method DisableErrorInterrupts(start: nat, num: nat)
      modifies this`regs
      ensures regs == Disabled(old(regs), start, start + num) && regs.enabled == old(regs).enabled
      ensures forall ch :: ch in regs.l2Off <==>
        ch in old(regs).l2Off || (ch in old(regs).l2Status && start <= ch.0 < start + num && IsNoc(ch.0))
      ensures forall ch :: ch in regs.l2Status <==>
        ch in old(regs).l2Status && !(start <= ch.0 < start + num && IsNoc(ch.0))
    {
      var l2 := if IsNoc(start) then start else NextNoc(start);
      ghost var r := regs;
      assert Within(r.l2Status, start, l2) == {};
      while l2 < start + num
        invariant start <= l2 && IsNoc(l2)
        invariant regs == Disabled(r, start, if l2 < start + num then l2 else start + num)
      {
        var status := set ch | ch in regs.l2Status && ch.0 == l2;
        ghost var next := if NextNoc(l2) < start + num then NextNoc(l2) else start + num;
        assert Within(r.l2Status, start, next) == Within(r.l2Status, start, l2) + status;
        if status != {} {
          regs := regs.(l2Off := regs.l2Off + status);
          regs := regs.(l2Status := regs.l2Status - status);
        }
        assert regs.l2Off == r.l2Off + Within(r.l2Status, start, next);
        assert regs.l2Status == r.l2Status - Within(r.l2Status, start, next);
        l2 := NextNoc(l2);
      }
    }

    /** Disable, then backtrack into buffers of the given sizes until a call succeeds, and put
        the entries of all calls together. They are one for each error that was active and
        enabled in the columns at hand, exactly these are masked, and all channels are enabled
        again. */
    method HandleErrorInterrupts(start: nat, num: nat, sizes: nat -> nat)
      returns (calls: nat, reported: seq<Payload>, ghost found: seq<Err>)
      requires ValidConfig(cfg) && AtLeast(sizes, 1) && !(cfg.checks && Refused(cfg, 1, start, num))
      requires Raised(cfg, regs, start, num) && next == Nowhere
      modifies this
      ensures reported == Payloads(cfg, found)
      ensures forall i, j | 0 <= i < j < |reported| :: reported[i] != reported[j]
      ensures forall e :: e in found <==>
        && e in old(regs).enabled * cfg.active && e.site.col < cfg.numCols
        && start <= Target(cfg.numCols, e.site.col) < start + num
      ensures regs.enabled == old(regs).enabled - Elems(found)
      ensures forall ch | ch in regs.l2Off :: !(start <= ch.0 < start + num)
      ensures calls > 0 && forall k: nat | AtLeast(sizes, k) :: (calls - 1) * k <= |reported|
    {
      hide CallReady, Counted, Remaining, Raised, Disabled, InCols;
      ghost var r0 := regs;
      DisabledReady(cfg, regs, meta, start, num);
      DisableErrorInterrupts(start, num);
      calls, reported, found := 0, [], [];
      NothingCounted(cfg, r0, regs, start, num);
      while true
        invariant CallReady(cfg, regs, next, meta, start, num)
        invariant Counted(cfg, r0, regs, found, reported, start, num)
        invariant forall k: nat | AtLeast(sizes, k) :: calls * k <= |found|
        decreases |Remaining(cfg, regs)|
      {
        assert sizes(calls) >= 1;
        var payload := new Payload[sizes(calls)](_ => Payload(Site(0, 0, PlMod), 0));
        ghost var r1, some := regs, found;
        var rc;
        rc, some := BacktrackErrorInterrupts(start, num, payload);
        CountedTrans(cfg, r0, r1, regs, found, some, reported, payload[..errorCount], start, num);
        SomeCounted(cfg, r1, regs, some, payload[..errorCount], start, num);
        CallCounted(sizes, calls, |found|, |found| + |some|, payload.Length);
        reported := reported + payload[..errorCount];
        found := found + some;
        calls := calls + 1;
        if rc == Ok {
          AllCounted(cfg, r0, regs, found, reported, start, num);
          return;
        }
      }
    }
  }

  lemma NothingCounted(cfg: Config, r0: Regs, r: Regs, start: nat, num: nat)
    requires ValidConfig(cfg) && r.enabled == r0.enabled
    ensures Counted(cfg, r0, r, [], [], start, num)
  {
    assert Remaining(cfg, r) - Elems([]) == Remaining(cfg, r);
  }

  lemma SomeCounted(cfg: Config, r0: Regs, r: Regs, found: seq<Err>, entries: seq<Payload>,
      start: nat, num: nat)
    requires ValidConfig(cfg) && Counted(cfg, r0, r, found, entries, start, num)
    ensures |entries| == |found| && |Remaining(cfg, r0)| == |Remaining(cfg, r)| + |found|
  {
    ReportedCount(Remaining(cfg, r0), found, Remaining(cfg, r));
  }

  lemma CountedTrans(cfg: Config, r0: Regs, r1: Regs, r: Regs, past: seq<Err>, some: seq<Err>,
      entries: seq<Payload>, more: seq<Payload>, start: nat, num: nat)
    requires ValidConfig(cfg) && Counted(cfg, r0, r1, past, entries, start, num)
    requires Counted(cfg, r1, r, some, more, start, num)
    ensures Counted(cfg, r0, r, past + some, entries + more, start, num)
  {
    ReportedTrans(Remaining(cfg, r0), past, Remaining(cfg, r1), some, Remaining(cfg, r));
    assert Payloads(cfg, past + some) == Payloads(cfg, past) + Payloads(cfg, some);
  }

  /** When nothing remains in the columns at hand, all errors there have been found. */
  lemma AllCounted(cfg: Config, r0: Regs, r: Regs, found: seq<Err>, reported: seq<Payload>,
      start: nat, num: nat)
    requires ValidConfig(cfg) && Counted(cfg, r0, r, found, reported, start, num)
    requires forall e | e in Remaining(cfg, r) :: !InCols(cfg, start, num, e.site.col)
    ensures forall i, j | 0 <= i < j < |reported| :: reported[i] != reported[j]
    ensures forall e :: e in found <==>
      && e in r0.enabled * cfg.active && e.site.col < cfg.numCols
      && start <= Target(cfg.numCols, e.site.col) < start + num
    ensures r.enabled == r0.enabled - Elems(found)
  {
    forall i, j | 0 <= i < j < |reported|
      ensures reported[i] != reported[j]
    {
      if reported[i] == reported[j] {
        PayloadTells(cfg, found[i], found[j]);
      }
    }
    assert r.enabled == Idle(cfg, r) + Remaining(cfg, r);
    assert r0.enabled == Idle(cfg, r0) + Remaining(cfg, r0);
  }

  /** A call that fills its buffer pays for itself. */
  lemma CallCounted(sizes: nat -> nat, calls: nat, before: nat, after: nat, size: nat)
    requires forall k: nat | AtLeast(sizes, k) :: calls * k <= before
    requires before <= after && size == sizes(calls)
    ensures forall k: nat | AtLeast(sizes, k) :: calls * k <= after
    ensures after == before + size ==> forall k: nat | AtLeast(sizes, k) :: (calls + 1) * k <= after
  {
  }
}
