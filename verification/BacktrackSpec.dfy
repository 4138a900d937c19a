/** What an error leaves behind in the status registers, and what is still to be found.
    Registers are modelled by the sets of their bits that are 1. */
module BacktrackSpec {
  import opened ErrorBroadcast

  datatype Module = MemMod | CoreMod | PlMod

  datatype Site = Site(col: nat, row: nat, mod: Module)

  /** Bit `index` of the group-error registers of a module. */
  datatype Err = Err(site: Site, index: nat)

  /** A first-level interrupt controller. */
  datatype L1 = L1(col: nat, sw: Switch)

  /** The partition: its columns and rows, which tiles are clocked, and the errors whose status
      is set. `deviceCols` is the number of columns of the device, and `checks` says whether
      the driver was built with checks of its arguments. */
  datatype Config = Config(numCols: nat, deviceCols: nat, checks: bool, gen: Generation,
                           memStart: nat, memEnd: nat, aieStart: nat, aieEnd: nat,
                           requested: set<(nat, nat)>, active: set<Err>)

  /** enabled: group-error enables; group: group event seen; bcast: broadcast received from
      above; l1Shim, l1Bcast: status bits of the L1 controllers; l2Status, l2Off: raised and
      disabled channels of the L2 controllers. */
  datatype Regs = Regs(enabled: set<Err>, group: set<Site>, bcast: set<Site>, l1Shim: set<L1>, l1Bcast: set<L1>,
                       l2Status: set<(nat, nat)>, l2Off: set<(nat, nat)>)

  /** The part of the caller's metadata that says where to go on: valid once a call ran out
      of room, with the row and the module it stopped at. */
  datatype Meta = Meta(valid: bool, row: nat, mod: Module)

  /** Where the previous call ran out of room, and under which L1 controller. */
  datatype Next = Nowhere | At(l1: L1, row: nat, mod: Module)

  // ---------------------------------------------------------------- the device

  predicate IsShim(site: Site) {
    site.row == 0 && site.mod == PlMod
  }

  predicate IsMemTile(cfg: Config, site: Site) {
    cfg.memStart <= site.row < cfg.memEnd && site.mod == MemMod && (site.col, site.row) in cfg.requested
  }

  predicate IsAieTile(cfg: Config, site: Site) {
    cfg.aieStart <= site.row < cfg.aieEnd && site.mod != PlMod && (site.col, site.row) in cfg.requested
  }

  predicate ValidConfig(cfg: Config) {
    && cfg.numCols >= 3 && cfg.numCols % 4 == 2
    && cfg.memStart <= cfg.memEnd <= cfg.aieStart <= cfg.aieEnd && 1 <= cfg.aieStart
    && (cfg.memStart < cfg.memEnd ==> 1 <= cfg.memStart)
    && forall e | e in cfg.active :: e.index < 32
  }

  /** The module of an array tile that a switch scans. */
  function ModOf(sw: Switch): Module {
    if sw == A then CoreMod else MemMod
  }

  /** The L2 channel an L1 controller is routed to. */
  function Channel(cfg: Config, l1: L1): (nat, nat)
    requires ValidConfig(cfg) && l1.col < cfg.numCols
  {
    (Target(cfg.numCols, l1.col), IrqId(cfg.gen, cfg.numCols, l1.col, l1.sw))
  }

  /** Channel of a source at any column; columns outside the partition have none. */
  predicate Reports(cfg: Config, chans: set<(nat, nat)>, l1: L1)
    requires ValidConfig(cfg)
  {
    l1.col < cfg.numCols && Channel(cfg, l1) in chans
  }

  // ---------------------------------------------------------------- remaining errors

  /** Errors that are active and not yet masked by a backtrack. */
  function Remaining(cfg: Config, r: Regs): set<Err> {
    r.enabled * cfg.active
  }

  /** The other enables, of errors that are not active. */
  function Idle(cfg: Config, r: Regs): set<Err> {
    r.enabled - cfg.active
  }

  predicate Quiet(cfg: Config, r: Regs, site: Site) {
    forall e | e in Remaining(cfg, r) :: e.site != site
  }

  /** Columns whose L2 controller lies in the given range. */
  predicate InCols(cfg: Config, start: nat, num: nat, col: nat)
    requires ValidConfig(cfg)
  {
    col < cfg.numCols && start <= Target(cfg.numCols, col) < start + num
  }

  /** An L1 controller that a pending channel leads to and that shows `shim` or broadcast
      errors, or at which the previous call stopped. */
  predicate ShimSeen(cfg: Config, r: Regs, chans: set<(nat, nat)>, next: Next, l1: L1)
    requires ValidConfig(cfg)
  {
    Reports(cfg, chans, l1) && (l1 in r.l1Shim || (next.At? && next.l1 == l1 && next.mod == PlMod))
  }

  predicate ArraySeen(cfg: Config, r: Regs, chans: set<(nat, nat)>, next: Next, l1: L1)
    requires ValidConfig(cfg)
  {
    Reports(cfg, chans, l1) && (l1 in r.l1Bcast || (next.At? && next.l1 == l1 && next.mod != PlMod))
  }

  /** The broadcast was received in every clocked tile below `row`, except where the previous
      call has already been. */
  ghost predicate Chain(cfg: Config, r: Regs, next: Next, l1: L1, row: nat) {
    forall k | cfg.aieStart <= k < row && (l1.col, k) in cfg.requested ::
      || Site(l1.col, k, ModOf(l1.sw)) in r.bcast
      || (next.At? && next.l1 == l1 && next.mod == ModOf(l1.sw) && next.row > k)
  }

  /** The scan of the pending channels finds this module. */
  ghost predicate Signalled(cfg: Config, r: Regs, chans: set<(nat, nat)>, next: Next, site: Site)
    requires ValidConfig(cfg)
  {
    && site in r.group
    && if IsShim(site) then
         ShimSeen(cfg, r, chans, next, L1(site.col, A)) || ShimSeen(cfg, r, chans, next, L1(site.col, B))
       else if IsMemTile(cfg, site) then
         ArraySeen(cfg, r, chans, next, L1(site.col, A)) || ArraySeen(cfg, r, chans, next, L1(site.col, B))
       else
         && IsAieTile(cfg, site)
         && var l1 := L1(site.col, if site.mod == CoreMod then A else B);
            ArraySeen(cfg, r, chans, next, l1) && Chain(cfg, r, next, l1, site.row)
  }

  /** Every remaining error of the columns at hand will be found. */
  ghost predicate AllSignalled(cfg: Config, r: Regs, chans: set<(nat, nat)>, next: Next, start: nat, num: nat)
    requires ValidConfig(cfg)
  {
    forall e | e in Remaining(cfg, r) && InCols(cfg, start, num, e.site.col) ::
      Signalled(cfg, r, chans, next, e.site)
  }

  /** What is known about the modules in front of the one where the previous call stopped. */
  ghost predicate NextOk(cfg: Config, r: Regs, next: Next) {
    && (next.At? && next.mod == PlMod ==> next.row == 0)
    && (next.At? && next.mod != PlMod ==>
      && next.l1 !in r.l1Shim
      && (next.row >= cfg.aieStart ==>
           && next.mod == ModOf(next.l1.sw)
           && QuietRows(cfg, r, next.l1.col, cfg.memStart, cfg.memEnd, MemMod)
           && QuietRows(cfg, r, next.l1.col, cfg.aieStart, next.row, next.mod)))
  }

  // ---------------------------------------------------------------- reporting

  function Elems(s: seq<Err>): (es: set<Err>)
    ensures forall e :: e in es <==> e in s
  {
    set e | e in s
  }

  /** Reporting `found` takes the remaining errors from `was` to `now`: each exactly once. */
  ghost predicate Reported(was: set<Err>, found: seq<Err>, now: set<Err>) {
    && (forall e | e in found :: e in was)
    && (forall i, j | 0 <= i < j < |found| :: found[i] != found[j])
    && now == was - Elems(found)
  }

  lemma ReportedTrans(a: set<Err>, x: seq<Err>, b: set<Err>, y: seq<Err>, c: set<Err>)
    requires Reported(a, x, b) && Reported(b, y, c)
    ensures Reported(a, x + y, c)
  {
    assert Elems(x + y) == Elems(x) + Elems(y);
    forall i, j | 0 <= i < j < |x + y|
      ensures (x + y)[i] != (x + y)[j]
    {
      if i < |x| <= j {
        assert y[j - |x|] in b && x[i] in Elems(x);
      }
    }
  }

  lemma {:induction false} CountOf(s: seq<Err>)
    requires forall i, j | 0 <= i < j < |s| :: s[i] != s[j]
    ensures |Elems(s)| == |s|
  {
    if s != [] {
      var n := |s| - 1;
      CountOf(s[..n]);
      assert Elems(s) == Elems(s[..n]) + {s[n]};
      assert s[n] !in Elems(s[..n]);
    }
  }

  // ---------------------------------------------------------------- one module scanned

  function SiteBits(es: set<Err>, site: Site): (r: set<Err>)
    ensures forall e :: e in r <==> e in es && e.site == site
  {
    set e | e in es && e.site == site
  }

  /** What scanning a module does: the errors in `found` are masked, and the group event is
      cleared if the scan got to the end. */
  ghost predicate Scanned(cfg: Config, r: Regs, site: Site, found: seq<Err>, done: bool, r': Regs) {
    && Reported(Remaining(cfg, r), found, Remaining(cfg, r'))
    && (forall e | e in found :: e.site == site)
    && r' == r.(enabled := r.enabled - Elems(found),
                group := if done && site in r.group then r.group - {site} else r.group)
    && (found != [] ==> site in r.group)
    && (done && site in r.group ==> Quiet(cfg, r', site))
    && (!done ==> found != [])
  }

  ghost predicate Ascending(found: seq<Err>) {
    forall i, j | 0 <= i < j < |found| :: found[i].index < found[j].index
  }

  /** The errors of a module found among its first `n` group bits, in ascending order. */
  ghost predicate FoundUpTo(cfg: Config, r: Regs, site: Site, found: seq<Err>, n: nat) {
    && (forall e | e in found :: e in Remaining(cfg, r) && e.site == site && e.index < n)
    && Ascending(found)
    && (forall e | e in Remaining(cfg, r) && e.site == site && e.index < n :: e in found)
  }

  lemma FoundNone(cfg: Config, r: Regs, site: Site)
    ensures FoundUpTo(cfg, r, site, [], 0)
  {
  }

  lemma FoundNext(cfg: Config, r: Regs, site: Site, found: seq<Err>, n: nat)
    requires FoundUpTo(cfg, r, site, found, n)
    ensures var e := Err(site, n);
      FoundUpTo(cfg, r, site, if e in Remaining(cfg, r) then found + [e] else found, n + 1)
  {
  }

  lemma ScanIs(cfg: Config, r: Regs, site: Site, found: seq<Err>, n: nat, done: bool, r': Regs)
    requires ValidConfig(cfg) && FoundUpTo(cfg, r, site, found, n) && site in r.group
    requires done ==> n == 32
    requires !done ==> found != []
    requires r' == r.(enabled := (r.enabled - SiteBits(r.enabled, site)) + (SiteBits(r.enabled, site) - Elems(found)),
                      group := if done then r.group - {site} else r.group)
    ensures Scanned(cfg, r, site, found, done, r') && Ascending(found)
  {
  }

  lemma ScanNothing(cfg: Config, r: Regs, site: Site)
    requires site !in r.group
    ensures Scanned(cfg, r, site, [], true, r) && Ascending([])
  {
  }

  // ---------------------------------------------------------------- one L1 controller scanned

  /** What survives while the scan below `l1` goes on: signals are lost only for modules
      without remaining errors, for `l1` itself and for the rows below `cut`. */
  ghost predicate Kept(cfg: Config, r: Regs, r': Regs, l1: L1, cut: nat) {
    && Remaining(cfg, r') <= Remaining(cfg, r) && Idle(cfg, r') == Idle(cfg, r)
    && r'.l2Off == r.l2Off && r'.l2Status == r.l2Status
    && (forall x | x in r.l1Shim && x != l1 :: x in r'.l1Shim)
    && (forall x | x in r.l1Bcast && x != l1 :: x in r'.l1Bcast)
    && r'.l1Shim <= r.l1Shim && r'.l1Bcast <= r.l1Bcast
    && (forall e | e in Remaining(cfg, r') && e.site in r.group :: e.site in r'.group)
    && (forall site | site in r.bcast && site !in r'.bcast :: Cleared(cfg, l1, cut, site))
  }

  /** The broadcast bits the scan may have cleared. */
  predicate Cleared(cfg: Config, l1: L1, cut: nat, site: Site) {
    || (site.mod == MemMod && cfg.memStart <= site.row < cfg.memEnd)
    || (site.col == l1.col && site.mod == ModOf(l1.sw) && cfg.aieStart <= site.row < cut)
  }

  lemma KeptTrans(cfg: Config, r: Regs, r': Regs, r'': Regs, l1: L1, cut: nat, cut': nat)
    requires Kept(cfg, r, r', l1, cut) && Kept(cfg, r', r'', l1, cut') && cut <= cut'
    ensures Kept(cfg, r, r'', l1, cut')
  {
  }

  lemma KeptRest(cfg: Config, r: Regs, r': Regs, l1: L1, cut: nat)
    requires Kept(cfg, r, r', l1, cut)
    ensures Remaining(cfg, r') <= Remaining(cfg, r) && Idle(cfg, r') == Idle(cfg, r)
    ensures r'.l2Off == r.l2Off && r'.l2Status == r.l2Status
  {
  }

  lemma KeptQuiet(cfg: Config, r: Regs, r': Regs, l1: L1, cut: nat, site: Site)
    requires Kept(cfg, r, r', l1, cut) && Quiet(cfg, r, site)
    ensures Quiet(cfg, r', site)
  {
  }

  /** The broadcast bits from `cut` on are those of the beginning. */
  lemma KeptBcast(cfg: Config, r: Regs, r': Regs, l1: L1, cut: nat)
    requires ValidConfig(cfg) && Kept(cfg, r, r', l1, cut) && cfg.aieStart <= cut
    ensures Site(l1.col, cut, ModOf(l1.sw)) in r.bcast ==> Site(l1.col, cut, ModOf(l1.sw)) in r'.bcast
  {
  }

  lemma KeptMore(cfg: Config, r: Regs, r': Regs, l1: L1, cut: nat, cut': nat)
    requires Kept(cfg, r, r', l1, cut) && cut <= cut'
    ensures Kept(cfg, r, r', l1, cut')
  {
  }

  lemma KeptCleared(cfg: Config, r: Regs, r': Regs, l1: L1, row: nat)
    requires Kept(cfg, r, r', l1, row) && cfg.aieStart <= row
    ensures Kept(cfg, r, r'.(bcast := r'.bcast - {Site(l1.col, row, ModOf(l1.sw))}), l1, row + 1)
  {
  }

  lemma ScannedKeeps(cfg: Config, r: Regs, site: Site, found: seq<Err>, done: bool, r': Regs,
      l1: L1, cut: nat)
    requires Scanned(cfg, r, site, found, done, r')
    ensures Kept(cfg, r, r', l1, cut)
  {
  }

  predicate QuietRows(cfg: Config, r: Regs, col: nat, lo: nat, hi: nat, mod: Module) {
    forall k | lo <= k < hi && (col, k) in cfg.requested :: Quiet(cfg, r, Site(col, k, mod))
  }

  /** Every remaining error of a column has set the group event of its module. */
  predicate Grouped(cfg: Config, r: Regs, col: nat) {
    forall e | e in Remaining(cfg, r) && e.site.col == col :: e.site in r.group
  }

  /** One more row of a column scanned to the end. */
  lemma RowDone(cfg: Config, r: Regs, found: seq<Err>, r': Regs, col: nat, lo: nat, k: nat,
      mod: Module)
    requires Scanned(cfg, r, Site(col, k, mod), found, true, r') && QuietRows(cfg, r, col, lo, k, mod)
    requires Grouped(cfg, r, col)
    ensures QuietRows(cfg, r', col, lo, k + 1, mod)
  {
  }

  lemma QuietRowsStay(cfg: Config, r: Regs, r': Regs, col: nat, lo: nat, hi: nat, mod: Module)
    requires QuietRows(cfg, r, col, lo, hi, mod) && Remaining(cfg, r') <= Remaining(cfg, r)
    ensures QuietRows(cfg, r', col, lo, hi, mod)
  {
  }

  /** No broadcast came from above `row`, and the previous call did not stop above it. */
  predicate EndsAt(cfg: Config, r: Regs, meta: Meta, l1: L1, row: nat) {
    Site(l1.col, row, ModOf(l1.sw)) !in r.bcast && !(meta.valid && meta.mod == ModOf(l1.sw) && meta.row > row)
  }

  ghost predicate RemainedAt(cfg: Config, r: Regs, site: Site) {
    !Quiet(cfg, r, site)
  }

  lemma FoundRemained(cfg: Config, r0: Regs, r: Regs, site: Site, found: seq<Err>, r': Regs)
    requires Remaining(cfg, r) <= Remaining(cfg, r0) && Scanned(cfg, r, site, found, false, r')
    ensures RemainedAt(cfg, r0, site)
  {
    assert found[0] in Remaining(cfg, r0) && found[0].site == site;
  }

  // ---------------------------------------------------------------- the scan keeps its bearings

  /** The scan below `l1` starts: every remaining error will be found, and if the previous
      call stopped, it was here. */
  ghost predicate Ready(cfg: Config, r: Regs, chans: set<(nat, nat)>, next: Next, meta: Meta, l1: L1,
      start: nat, num: nat)
    requires ValidConfig(cfg)
  {
    && AllSignalled(cfg, r, chans, next, start, num) && NextOk(cfg, r, next)
    && (next.At? ==> next.l1 == l1 && meta == Meta(true, next.row, next.mod))
    && InCols(cfg, start, num, l1.col) && Reports(cfg, chans, l1)
  }

  predicate ShimGate(r: Regs, meta: Meta, l1: L1) {
    l1 in r.l1Shim || (meta.valid && meta.mod == PlMod && meta.row == 0)
  }

  predicate ArrayGate(r: Regs, meta: Meta, l1: L1) {
    l1 in r.l1Bcast || (meta.valid && meta.mod != PlMod && meta.row >= 0)
  }

  function ShimSite(l1: L1): Site {
    Site(l1.col, 0, PlMod)
  }

  lemma ReadyGroups(cfg: Config, r: Regs, chans: set<(nat, nat)>, next: Next, meta: Meta,
      l1: L1, start: nat, num: nat)
    requires ValidConfig(cfg) && Ready(cfg, r, chans, next, meta, l1, start, num)
    ensures Grouped(cfg, r, l1.col)
  {
  }

  /** What the scan below `l1` does to the rest: channels only drop out for `l1`. */
  ghost predicate Beside(cfg: Config, r: Regs, r': Regs, chans: set<(nat, nat)>, chans': set<(nat, nat)>,
      next: Next, l1: L1, cut: nat)
    requires ValidConfig(cfg)
  {
    && l1.col < cfg.numCols && Kept(cfg, r, r', l1, cut)
    && (next.At? ==> next.l1 == l1)
    && chans - {Channel(cfg, l1)} <= chans'
  }

  /** Other L1 controllers still show what they showed. */
  lemma OtherL1(cfg: Config, r: Regs, r': Regs, chans: set<(nat, nat)>, chans': set<(nat, nat)>,
      next: Next, next': Next, l1: L1, cut: nat, x: L1)
    requires ValidConfig(cfg) && Beside(cfg, r, r', chans, chans', next, l1, cut) && x != l1
    ensures ShimSeen(cfg, r, chans, next, x) ==> ShimSeen(cfg, r', chans', next', x)
    ensures ArraySeen(cfg, r, chans, next, x) ==> ArraySeen(cfg, r', chans', next', x)
    ensures forall row: nat | Chain(cfg, r, next, x, row) :: Chain(cfg, r', next', x, row)
  {
    if x.col < cfg.numCols {
      OtherChannel(cfg, l1, x);
    }
    forall row: nat | Chain(cfg, r, next, x, row)
      ensures Chain(cfg, r', next', x, row)
    {
      forall k | cfg.aieStart <= k < row && (x.col, k) in cfg.requested
        ensures Site(x.col, k, ModOf(x.sw)) in r'.bcast
      {
        assert Site(x.col, k, ModOf(x.sw)) in r.bcast;
        assert !Cleared(cfg, l1, cut, Site(x.col, k, ModOf(x.sw)));
      }
    }
  }

  function Scanner(site: Site): L1 {
    L1(site.col, if site.mod == CoreMod then A else B)
  }

  /** Modules that `l1` does not scan are found as before. */
  lemma OthersSignalled(cfg: Config, r: Regs, r': Regs, chans: set<(nat, nat)>, chans': set<(nat, nat)>,
      next: Next, next': Next, l1: L1, cut: nat, e: Err)
    requires ValidConfig(cfg) && Beside(cfg, r, r', chans, chans', next, l1, cut)
    requires e in Remaining(cfg, r') && Signalled(cfg, r, chans, next, e.site)
    requires e.site.col != l1.col || (!IsShim(e.site) && !IsMemTile(cfg, e.site) && Scanner(e.site) != l1)
    ensures Signalled(cfg, r', chans', next', e.site)
  {
    assert e.site in r'.group;
    if e.site.col != l1.col {
      OtherL1(cfg, r, r', chans, chans', next, next', l1, cut, L1(e.site.col, A));
      OtherL1(cfg, r, r', chans, chans', next, next', l1, cut, L1(e.site.col, B));
    } else {
      OtherL1(cfg, r, r', chans, chans', next, next', l1, cut, Scanner(e.site));
    }
  }

  function Twin(l1: L1): L1 {
    L1(l1.col, if l1.sw == A then B else A)
  }

  lemma OtherChannel(cfg: Config, x: L1, y: L1)
    requires ValidConfig(cfg) && x != y && x.col < cfg.numCols && y.col < cfg.numCols
    ensures Channel(cfg, x) != Channel(cfg, y)
  {
    MapsBackIff(cfg.gen, cfg.numCols);
    var p, q := Pos(x.col, x.sw), Pos(y.col, y.sw);
    assert ColOf(p) == x.col && SwOf(p) == x.sw && ColOf(q) == y.col && SwOf(q) == y.sw;
  }

  /** The scan stopped in the shim tile. */
  lemma ShimStopped(cfg: Config, r: Regs, r': Regs, chans: set<(nat, nat)>, next: Next, meta: Meta, l1: L1,
      start: nat, num: nat)
    requires ValidConfig(cfg) && Ready(cfg, r, chans, next, meta, l1, start, num)
    requires ShimGate(r, meta, l1) && Kept(cfg, r, r', l1, cfg.aieStart) && r'.l1Bcast == r.l1Bcast
    ensures AllSignalled(cfg, r', chans, At(l1, 0, PlMod), start, num) && NextOk(cfg, r', At(l1, 0, PlMod))
  {
  }

  /** The scan stopped in a memory tile. */
  lemma MemStopped(cfg: Config, r: Regs, r': Regs, chans: set<(nat, nat)>, next: Next, meta: Meta, l1: L1,
      row: nat, start: nat, num: nat)
    requires ValidConfig(cfg) && Ready(cfg, r, chans, next, meta, l1, start, num)
    requires ShimGate(r, meta, l1) ==> Quiet(cfg, r', ShimSite(l1))
    requires l1 !in r'.l1Shim && Kept(cfg, r, r', l1, cfg.aieStart)
    requires IsMemTile(cfg, Site(l1.col, row, MemMod)) && RemainedAt(cfg, r, Site(l1.col, row, MemMod))
    ensures AllSignalled(cfg, r', chans, At(l1, row, MemMod), start, num) && NextOk(cfg, r', At(l1, row, MemMod))
  {
  }

  /** The scan stopped in an array tile. */
  lemma AieStopped(cfg: Config, r: Regs, r': Regs, chans: set<(nat, nat)>, next: Next, meta: Meta, l1: L1,
      row: nat, start: nat, num: nat)
    requires ValidConfig(cfg) && Ready(cfg, r, chans, next, meta, l1, start, num)
    requires ShimGate(r, meta, l1) ==> Quiet(cfg, r', ShimSite(l1))
    requires l1 !in r'.l1Shim && cfg.aieStart <= row && Kept(cfg, r, r', l1, row)
    requires (l1.col, row) in cfg.requested && RemainedAt(cfg, r, Site(l1.col, row, ModOf(l1.sw)))
    requires QuietRows(cfg, r', l1.col, cfg.memStart, cfg.memEnd, MemMod)
    requires QuietRows(cfg, r', l1.col, cfg.aieStart, row, ModOf(l1.sw))
    ensures var next' := At(l1, row, ModOf(l1.sw));
      AllSignalled(cfg, r', chans, next', start, num) && NextOk(cfg, r', next')
  {
    var next' := At(l1, row, ModOf(l1.sw));
    forall e | e in Remaining(cfg, r') && InCols(cfg, start, num, e.site.col)
      ensures Signalled(cfg, r', chans, next', e.site)
    {
      if e.site.col != l1.col {
        OthersSignalled(cfg, r, r', chans, chans, next, next', l1, row, e);
      } else {
        OtherL1(cfg, r, r', chans, chans, next, next', l1, row, Twin(l1));
        assert Signalled(cfg, r, chans, next, e.site);
        if !IsShim(e.site) && !IsMemTile(cfg, e.site) && Scanner(e.site) == l1 {
          HighChainKept(cfg, r, r', next, l1, row, e.site.row);
        }
      }
    }
  }

  lemma HighChainKept(cfg: Config, r: Regs, r': Regs, next: Next, l1: L1, stop: nat, row: nat)
    requires Chain(cfg, r, next, l1, row) && Kept(cfg, r, r', l1, stop) && cfg.memEnd <= cfg.aieStart <= stop
    requires NextOk(cfg, r, next) && (l1.col, stop) in cfg.requested
    requires RemainedAt(cfg, r, Site(l1.col, stop, ModOf(l1.sw)))
    ensures Chain(cfg, r', At(l1, stop, ModOf(l1.sw)), l1, row)
  {
  }

  /** The array below `l1` was scanned up to row `stop`, where the broadcast ended. */
  ghost predicate ArraySwept(cfg: Config, r: Regs, r': Regs, meta: Meta, l1: L1, stop: nat) {
    && QuietRows(cfg, r', l1.col, cfg.memStart, cfg.memEnd, MemMod)
    && QuietRows(cfg, r', l1.col, cfg.aieStart, stop, ModOf(l1.sw))
    && (stop < cfg.aieEnd ==>
         cfg.aieStart < stop && (l1.col, stop - 1) in cfg.requested && EndsAt(cfg, r, meta, l1, stop - 1))
  }

  lemma SweptBefore(cfg: Config, r: Regs, r1: Regs, r': Regs, meta: Meta, l1: L1, stop: nat)
    requires ArraySwept(cfg, r1, r', meta, l1, stop) && Kept(cfg, r, r1, l1, cfg.aieStart) && cfg.memEnd <= cfg.aieStart
    ensures ArraySwept(cfg, r, r', meta, l1, stop)
  {
  }

  /** What a finished scan below `l1` has been through. */
  ghost predicate Swept(cfg: Config, r: Regs, r': Regs, meta: Meta, l1: L1, stop: nat) {
    && (ShimGate(r, meta, l1) ==> Quiet(cfg, r', ShimSite(l1)))
    && (ArrayGate(r, meta, l1) ==> ArraySwept(cfg, r, r', meta, l1, stop))
  }

  /** The scan below `l1` got to its end: its channel is done with. */
  lemma L1Done(cfg: Config, r: Regs, r': Regs, chans: set<(nat, nat)>, next: Next, meta: Meta, l1: L1,
      stop: nat, start: nat, num: nat)
    requires ValidConfig(cfg) && Ready(cfg, r, chans, next, meta, l1, start, num)
    requires Kept(cfg, r, r', l1, cfg.aieEnd) && Swept(cfg, r, r', meta, l1, stop)
    ensures AllSignalled(cfg, r', chans - {Channel(cfg, l1)}, Nowhere, start, num)
  {
    var rest := chans - {Channel(cfg, l1)};
    forall e | e in Remaining(cfg, r') && InCols(cfg, start, num, e.site.col)
      ensures Signalled(cfg, r', rest, Nowhere, e.site)
    {
      if e.site.col != l1.col || (!IsShim(e.site) && !IsMemTile(cfg, e.site) && Scanner(e.site) != l1) {
        OthersSignalled(cfg, r, r', chans, rest, next, Nowhere, l1, cfg.aieEnd, e);
      } else {
        OtherL1(cfg, r, r', chans, rest, next, Nowhere, l1, cfg.aieEnd, Twin(l1));
        assert Signalled(cfg, r, chans, next, e.site);
        assert ShimSeen(cfg, r, chans, next, l1) ==> ShimGate(r, meta, l1);
        assert ArraySeen(cfg, r, chans, next, l1) ==> ArrayGate(r, meta, l1);
        if IsShim(e.site) {
          assert e.site == ShimSite(l1);
        } else if IsMemTile(cfg, e.site) {
          assert e.site == Site(l1.col, e.site.row, MemMod);
        } else {
          AieSwept(cfg, r, r', next, meta, l1, stop, e);
        }
      }
    }
  }

  /** Nothing remains in the array tiles of a finished scan. */
  lemma AieSwept(cfg: Config, r: Regs, r': Regs, next: Next, meta: Meta, l1: L1, stop: nat, e: Err)
    requires Swept(cfg, r, r', meta, l1, stop) && ArrayGate(r, meta, l1)
    requires next.At? ==> next.l1 == l1 && meta == Meta(true, next.row, next.mod)
    requires IsAieTile(cfg, e.site) && e.site.col == l1.col && e.site.mod == ModOf(l1.sw)
    requires Chain(cfg, r, next, l1, e.site.row)
    ensures e !in Remaining(cfg, r')
  {
  }

  lemma RemainedBefore(cfg: Config, r: Regs, r': Regs, site: Site)
    requires Remaining(cfg, r') <= Remaining(cfg, r) && RemainedAt(cfg, r', site)
    ensures RemainedAt(cfg, r, site)
  {
  }

  /** Where a scan of the array below `l1` can stop. */
  ghost predicate ArrayStop(cfg: Config, r: Regs, r': Regs, l1: L1, row: nat, mod: Module) {
    var site := Site(l1.col, row, mod);
    && RemainedAt(cfg, r, site)
    && if row < cfg.aieStart then mod == MemMod && IsMemTile(cfg, site)
       else
         && mod == ModOf(l1.sw) && row < cfg.aieEnd && (l1.col, row) in cfg.requested
         && QuietRows(cfg, r', l1.col, cfg.memStart, cfg.memEnd, MemMod)
         && QuietRows(cfg, r', l1.col, cfg.aieStart, row, mod)
  }

  function CutAt(cfg: Config, row: nat): nat {
    if row < cfg.aieStart then cfg.aieStart else row
  }

  /** The scan stopped in the array. */
  lemma ArrayStopped(cfg: Config, r: Regs, r': Regs, chans: set<(nat, nat)>, next: Next, meta: Meta, l1: L1,
      row: nat, mod: Module, start: nat, num: nat)
    requires ValidConfig(cfg) && Ready(cfg, r, chans, next, meta, l1, start, num)
    requires ShimGate(r, meta, l1) ==> Quiet(cfg, r', ShimSite(l1))
    requires l1 !in r'.l1Shim && Kept(cfg, r, r', l1, CutAt(cfg, row)) && ArrayStop(cfg, r, r', l1, row, mod)
    ensures AllSignalled(cfg, r', chans, At(l1, row, mod), start, num) && NextOk(cfg, r', At(l1, row, mod))
  {
    if row < cfg.aieStart {
      MemStopped(cfg, r, r', chans, next, meta, l1, row, start, num);
    } else {
      AieStopped(cfg, r, r', chans, next, meta, l1, row, start, num);
    }
  }

  lemma StopBefore(cfg: Config, r: Regs, r1: Regs, r': Regs, l1: L1, row: nat, mod: Module)
    requires ArrayStop(cfg, r1, r', l1, row, mod) && Remaining(cfg, r1) <= Remaining(cfg, r)
    ensures ArrayStop(cfg, r, r', l1, row, mod)
  {
  }

  // ---------------------------------------------------------------- the channels of a call

  predicate Before(x: (nat, nat), y: (nat, nat)) {
    x.0 < y.0 || (x.0 == y.0 && x.1 < y.1)
  }

  /** The disabled channels from (l2, index) on, up to column `end`. */
  function Pend(off: set<(nat, nat)>, end: nat, l2: nat, index: nat): (r: set<(nat, nat)>)
    ensures forall ch :: ch in r <==> ch in off && ch.0 < end && !Before(ch, (l2, index))
  {
    set ch | ch in off && ch.0 < end && !Before(ch, (l2, index))
  }

  ghost predicate IsSource(cfg: Config, ch: (nat, nat))
    requires ValidConfig(cfg)
  {
    exists l1: L1 :: l1.col < cfg.numCols && Channel(cfg, l1) == ch
  }

  /** Only channels that L1 controllers are routed to were ever disabled. */
  ghost predicate OnlySources(cfg: Config, off: set<(nat, nat)>)
    requires ValidConfig(cfg)
  {
    forall ch | ch in off :: IsSource(cfg, ch)
  }

  /** The L1 controller behind a channel, the way the backtrack computes it. */
  function L1Of(cfg: Config, ch: (nat, nat)): L1 {
    var (col, sw) := MapL2MaskToL1(cfg.numCols, ch.1, ch.0);
    L1(if col >= 0 then col else 0, if sw == 0 then A else B)
  }

  lemma L1OfIs(cfg: Config, ch: (nat, nat))
    requires ValidConfig(cfg) && IsSource(cfg, ch)
    ensures L1Of(cfg, ch).col < cfg.numCols && Channel(cfg, L1Of(cfg, ch)) == ch
    ensures ch.1 < 6 && IsNoc(ch.0)
  {
    var l1: L1 :| l1.col < cfg.numCols && Channel(cfg, l1) == ch;
    MapsBackIff(cfg.gen, cfg.numCols);
    var p := Pos(l1.col, l1.sw);
    assert ColOf(p) == l1.col && SwOf(p) == l1.sw;
    MlRoutes(cfg.numCols);
    AieRoutesIff(cfg.numCols);
    TargetIs(cfg.numCols, l1.col);
  }

  /** Between calls and at every step of one: what is left to find is found from the
      channels `chans`, the first of which is where the previous call stopped. */
  ghost predicate OnCourse(cfg: Config, r: Regs, chans: set<(nat, nat)>, next: Next, meta: Meta, start: nat, num: nat)
    requires ValidConfig(cfg)
  {
    && AllSignalled(cfg, r, chans, next, start, num) && NextOk(cfg, r, next)
    && (next.At? ==>
         && meta == Meta(true, next.row, next.mod)
         && next.l1.col < cfg.numCols && Channel(cfg, next.l1) in chans
         && forall ch | ch in chans :: !Before(ch, Channel(cfg, next.l1)))
  }

  /** Before a call. */
  ghost predicate CallReady(cfg: Config, r: Regs, next: Next, meta: Meta, start: nat, num: nat)
    requires ValidConfig(cfg)
  {
    OnlySources(cfg, r.l2Off) && OnCourse(cfg, r, Pend(r.l2Off, start + num, start, 0), next, meta, start, num)
  }

  lemma ChannelReady(cfg: Config, r: Regs, chans: set<(nat, nat)>, next: Next, meta: Meta,
      ch: (nat, nat), start: nat, num: nat)
    requires ValidConfig(cfg) && OnCourse(cfg, r, chans, next, meta, start, num)
    requires ch in chans && IsSource(cfg, ch) && start <= ch.0 < start + num
    requires forall x | x in chans :: !Before(x, ch)
    ensures Ready(cfg, r, chans, next, meta, L1Of(cfg, ch), start, num)
  {
    L1OfIs(cfg, ch);
    if next.At? {
      assert Channel(cfg, next.l1) == ch;
      if next.l1 != L1Of(cfg, ch) {
        OtherChannel(cfg, next.l1, L1Of(cfg, ch));
      }
    }
  }

  lemma ChannelDone(cfg: Config, r: Regs, chans: set<(nat, nat)>, meta: Meta, start: nat, num: nat)
    requires ValidConfig(cfg) && AllSignalled(cfg, r, chans, Nowhere, start, num)
    ensures OnCourse(cfg, r, chans, Nowhere, meta, start, num)
  {
  }

  /** Where the scan below one L1 controller leaves off. */
  lemma ChannelLeft(cfg: Config, r: Regs, chans: set<(nat, nat)>, next: Next, meta: Meta, ch: (nat, nat),
      start: nat, num: nat)
    requires ValidConfig(cfg) && IsSource(cfg, ch) && ch in chans && next.At?
    requires Ready(cfg, r, chans, next, meta, L1Of(cfg, ch), start, num)
    requires forall x | x in chans :: !Before(x, ch)
    ensures OnCourse(cfg, r, chans, next, meta, start, num)
    ensures next.l1.col < cfg.numCols && Channel(cfg, next.l1) == ch
  {
    L1OfIs(cfg, ch);
  }

  /** The disabled channels once those from column `l2` on, up to but not including `to`, are
      enabled again. */
  function Without(off: set<(nat, nat)>, l2: nat, to: (nat, nat)): (r: set<(nat, nat)>)
    ensures forall ch :: ch in r <==> ch in off && (ch.0 < l2 || !Before(ch, to))
  {
    set ch | ch in off && (ch.0 < l2 || !Before(ch, to))
  }

  lemma PendNext(off: set<(nat, nat)>, end: nat, l2: nat, index: nat)
    ensures Pend(off, end, l2, index + 1) == Pend(off, end, l2, index) - {(l2, index)}
    ensures (l2, index) !in off ==> Pend(off, end, l2, index + 1) == Pend(off, end, l2, index)
  {
  }

  lemma AllEnabled(cfg: Config, off: set<(nat, nat)>, l2: nat)
    requires ValidConfig(cfg) && OnlySources(cfg, off)
    ensures forall ch | ch in off :: ch.1 < 6 && IsNoc(ch.0)
  {
    hide IsSource, IsNoc, ValidConfig, L1Of, Channel;
    forall ch | ch in off
      ensures ch.1 < 6 && IsNoc(ch.0)
    {
      L1OfIs(cfg, ch);
    }
  }

  /** An L2 controller has six channels. */
  lemma PendLast(cfg: Config, off: set<(nat, nat)>, end: nat, l2: nat)
    requires ValidConfig(cfg) && OnlySources(cfg, off)
    ensures Pend(off, end, l2, 6) == Pend(off, end, l2 + 1, 0)
  {
    hide OnlySources, IsNoc, ValidConfig;
    AllEnabled(cfg, off, l2);
  }

  /** Enabling channels changes nothing for the scan. */
  lemma OnCourseOff(cfg: Config, r: Regs, off: set<(nat, nat)>, chans: set<(nat, nat)>, next: Next, meta: Meta,
      start: nat, num: nat)
    requires ValidConfig(cfg) && OnCourse(cfg, r, chans, next, meta, start, num)
    ensures OnCourse(cfg, r.(l2Off := off), chans, next, meta, start, num)
    ensures Remaining(cfg, r.(l2Off := off)) == Remaining(cfg, r)
  {
  }

  /** No L2 controller lies between two neighbouring NoC columns. */
  lemma PendSkip(cfg: Config, off: set<(nat, nat)>, end: nat, from: nat, to: nat)
    requires ValidConfig(cfg) && OnlySources(cfg, off) && from <= to && forall k | from <= k < to :: !IsNoc(k)
    ensures Pend(off, end, from, 0) == Pend(off, end, to, 0)
    ensures forall ch | ch in off :: !(from <= ch.0 < to)
  {
    hide OnlySources, IsNoc, ValidConfig;
    AllEnabled(cfg, off, from);
  }

  /** From one L2 controller of the range to the next. */
  lemma NextL2(cfg: Config, off: set<(nat, nat)>, end: nat, start: nat, l2: nat)
    requires ValidConfig(cfg) && OnlySources(cfg, off) && start <= l2
    ensures var off1, to := Without(off, start, (l2, 0)), NextNoc(l2);
      && Without(off1, l2, (l2 + 1, 0)) == Without(off, start, (to, 0))
      && Pend(off1, end, l2 + 1, 0) == Pend(Without(off, start, (to, 0)), end, to, 0)
      && OnlySources(cfg, Without(off, start, (to, 0)))
  {
    PendSkip(cfg, off, end, l2 + 1, NextNoc(l2));
  }

  /** The channels left over when a call stops at `ch`. */
  lemma StoppedL2(cfg: Config, off: set<(nat, nat)>, end: nat, start: nat, ch: (nat, nat))
    requires ValidConfig(cfg) && OnlySources(cfg, off) && start <= ch.0
    ensures var off1 := Without(off, start, (ch.0, 0));
      && Without(off1, ch.0, ch) == Without(off, start, ch)
      && Pend(off1, end, ch.0, ch.1) == Pend(Without(off, start, ch), end, start, 0)
      && OnlySources(cfg, Without(off, start, ch))
  {
  }

  lemma CourseNext(cfg: Config, r: Regs, off: set<(nat, nat)>, start: nat, num: nat, l2: nat,
      next: Next, meta: Meta)
    requires ValidConfig(cfg) && OnlySources(cfg, off) && start <= l2
    requires r.l2Off == Without(Without(off, start, (l2, 0)), l2, (l2 + 1, 0))
    requires OnCourse(cfg, r, Pend(Without(off, start, (l2, 0)), start + num, l2 + 1, 0), next, meta, start, num)
    ensures r.l2Off == Without(off, start, (NextNoc(l2), 0)) && OnlySources(cfg, r.l2Off)
    ensures OnCourse(cfg, r, Pend(r.l2Off, start + num, NextNoc(l2), 0), next, meta, start, num)
  {
    hide OnCourse, Pend, Without, OnlySources, NextNoc, ValidConfig;
    NextL2(cfg, off, start + num, start, l2);
  }

  lemma CourseStopped(cfg: Config, r: Regs, off: set<(nat, nat)>, start: nat, num: nat,
      ch: (nat, nat), next: Next, meta: Meta)
    requires ValidConfig(cfg) && OnlySources(cfg, off) && start <= ch.0
    requires r.l2Off == Without(Without(off, start, (ch.0, 0)), ch.0, ch)
    requires OnCourse(cfg, r, Pend(Without(off, start, (ch.0, 0)), start + num, ch.0, ch.1), next, meta, start, num)
    ensures r.l2Off == Without(off, start, ch) && CallReady(cfg, r, next, meta, start, num)
  {
    hide OnCourse, Pend, Without, OnlySources, ValidConfig;
    StoppedL2(cfg, off, start + num, start, ch);
  }

  /** Without channels to scan, nothing is left to find. */
  lemma NothingLeft(cfg: Config, r: Regs, next: Next, meta: Meta, start: nat, num: nat)
    requires ValidConfig(cfg) && OnCourse(cfg, r, {}, next, meta, start, num)
    ensures next == Nowhere && forall e | e in Remaining(cfg, r) :: !InCols(cfg, start, num, e.site.col)
  {
  }

  lemma EndOfRange(cfg: Config, off: set<(nat, nat)>, start: nat, num: nat, l2: nat)
    requires ValidConfig(cfg) && OnlySources(cfg, off) && start + num <= l2
    requires forall k | start + num <= k < l2 :: !IsNoc(k)
    ensures forall ch :: ch in Without(off, start, (l2, 0)) <==> ch in off && !(start <= ch.0 < start + num)
  {
    PendSkip(cfg, off, l2, start + num, l2);
  }

  /** The disabled channels of one L2 controller below `n`. */
  function Below(off: set<(nat, nat)>, l2: nat, n: nat): (r: set<nat>)
    ensures forall i :: i in r <==> i < n && (l2, i) in off
  {
    if n == 0 then {} else Below(off, l2, n - 1) + if (l2, n - 1) in off then {n - 1} else {}
  }

  lemma BelowNext(off: set<(nat, nat)>, l2: nat, n: nat)
    ensures Below(off, l2, n + 1) == if (l2, n) in off then Below(off, l2, n) + {n} else Below(off, l2, n)
  {
  }

  lemma ReportedCount(was: set<Err>, found: seq<Err>, now: set<Err>)
    requires Reported(was, found, now)
    ensures |was| == |now| + |found|
  {
    CountOf(found);
    assert was == now + Elems(found) && now !! Elems(found);
  }

  // ---------------------------------------------------------------- raising and disabling

  function Within(chans: set<(nat, nat)>, start: nat, end: nat): (r: set<(nat, nat)>)
    ensures forall ch :: ch in r <==> ch in chans && start <= ch.0 < end && IsNoc(ch.0)
  {
    set ch | ch in chans && start <= ch.0 < end && IsNoc(ch.0)
  }

  /** Hardware has signalled every remaining error of the columns at hand, all the way to
      an L2 channel that is raised or still disabled. */
  ghost predicate Raised(cfg: Config, r: Regs, start: nat, num: nat)
    requires ValidConfig(cfg)
  {
    && OnlySources(cfg, r.l2Status) && OnlySources(cfg, r.l2Off)
    && AllSignalled(cfg, r, Within(r.l2Status + r.l2Off, start, start + num), Nowhere, start, num)
  }

  /** The raised channels of NoC columns from `start` on and before `end` are disabled and
      acknowledged. */
  function Disabled(r: Regs, start: nat, end: nat): Regs {
    r.(l2Off := r.l2Off + Within(r.l2Status, start, end), l2Status := r.l2Status - Within(r.l2Status, start, end))
  }

  /** Disabling the raised channels makes a backtrack possible. */
  lemma DisabledReady(cfg: Config, r: Regs, meta: Meta, start: nat, num: nat)
    requires ValidConfig(cfg) && Raised(cfg, r, start, num)
    ensures var r' := Disabled(r, start, start + num);
      CallReady(cfg, r', Nowhere, meta, start, num) && Remaining(cfg, r') == Remaining(cfg, r)
  {
    var r' := Disabled(r, start, start + num);
    var chans := Within(r.l2Status + r.l2Off, start, start + num);
    AllEnabled(cfg, r'.l2Off, 0);
    assert Pend(r'.l2Off, start + num, start, 0) == chans;
    forall e | e in Remaining(cfg, r') && InCols(cfg, start, num, e.site.col)
      ensures Signalled(cfg, r', chans, Nowhere, e.site)
    {
      assert Signalled(cfg, r, chans, Nowhere, e.site);
      forall l1: L1, row: nat
        ensures Chain(cfg, r', Nowhere, l1, row) == Chain(cfg, r, Nowhere, l1, row)
      {
      }
    }
  }

  ghost predicate AtLeast(sizes: nat -> nat, k: nat) {
    forall i: nat :: sizes(i) >= k
  }
}
