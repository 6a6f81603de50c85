/** The request scheduler: which pending request the controller serves next.
    A queue position `h < |q|` names a request; `|q|` stands for `q.end()`,
    "serve nothing". */
module Schedulers {
  import opened AddressVectors
  import opened RowTables
  import opened PolicyNames
  import Configs

  datatype SchedPolicy = FCFS | FRFCFS | FRFCFS_Cap | FRFCFS_PriorHit

  /** A pending request with the facts the controller reports about it in
      this cycle: whether its next command is legal now (`is_ready`),
      whether its row is the open one (`is_row_hit`), and whether its row
      group has some row open (`is_row_open`). */
  datatype Request = Request(addrVec: AddrVec, arrive: int, isReady: bool, isRowHit: bool, isRowOpen: bool)

  /** What the scheduler reads from its controller besides the requests:
      the row table, the row level of address vectors, and the scope of
      the precharge command (`scope[PRE]`). */
  datatype ControllerView = ControllerView(rowTable: Table, rowLevel: nat, preScope: nat)

  /** The scheduler policy a configured name selects: the lower-cased name
      picks one of the four (`frfcfs_timeout` picks the prioritise-hit
      policy), anything else keeps `FRFCFS_Cap`, and only a non-empty
      unrecognised name warns. */
  function SchedPolicyFor(name: string): (s: Selection<SchedPolicy>)
    ensures s.policy == FCFS <==> ToLower(name) == "fcfs"
    ensures s.policy == FRFCFS <==> ToLower(name) == "frfcfs"
    ensures s.policy == FRFCFS_PriorHit <==> ToLower(name) == "frfcfs_timeout"
    ensures s.warning <==> name != Configs.Missing && s.policy == FRFCFS_Cap && ToLower(name) != "frfcfs_cap"
  {
    var policy := ToLower(name);
    if policy == "fcfs" then Selection(FCFS, false)
    else if policy == "frfcfs" then Selection(FRFCFS, false)
    else if policy == "frfcfs_cap" then Selection(FRFCFS_Cap, false)
    else if policy == "frfcfs_timeout" then Selection(FRFCFS_PriorHit, false)
    else Selection(FRFCFS_Cap, policy != Configs.Missing)
  }

  /** The scheduler policy does not depend on the case of its name. */
  lemma SchedPolicyIgnoresCase(name: string)
    ensures SchedPolicyFor(ToLower(name)) == SchedPolicyFor(name)
  {
    ToLowerIdempotent(name);
  }

  /** The address vectors are long enough for what the policy reads of
      them: the row level for the hit cap, the precharge scope for the
      prioritise-hit row groups. */
  predicate Addressable(ctrl: ControllerView, policy: SchedPolicy, q: seq<Request>) {
    forall i :: 0 <= i < |q| ==>
      && (policy == FRFCFS_Cap ==> ctrl.rowLevel < |q[i].addrVec|)
      && (policy == FRFCFS_PriorHit ==> ctrl.preScope < |q[i].addrVec|)
  }

  /** The readiness a comparator ranks by: plain readiness, readiness
      within the hit cap, or readiness of a row hit. */
  predicate Ready(ctrl: ControllerView, policy: SchedPolicy, cap: int, r: Request)
    requires policy == FRFCFS_Cap ==> ctrl.rowLevel < |r.addrVec|
  {
    match policy
    case FCFS => true
    case FRFCFS => r.isReady
    case FRFCFS_Cap => r.isReady && GetHits(ctrl.rowTable, ctrl.rowLevel, r.addrVec, false) <= cap
    case FRFCFS_PriorHit => r.isReady && r.isRowHit
  }

  /** The hit cap and the hit priority only narrow first-ready readiness,
      and under FCFS every request counts as ready. */
  lemma ReadinessNarrowsByPolicy(ctrl: ControllerView, cap: int, r: Request)
    requires ctrl.rowLevel < |r.addrVec|
    ensures Ready(ctrl, FCFS, cap, r)
    ensures Ready(ctrl, FRFCFS, cap, r) <==> r.isReady
    ensures Ready(ctrl, FRFCFS_Cap, cap, r) <==>
      Ready(ctrl, FRFCFS, cap, r) && GetHits(ctrl.rowTable, ctrl.rowLevel, r.addrVec, false) <= cap
    ensures Ready(ctrl, FRFCFS_PriorHit, cap, r) <==> Ready(ctrl, FRFCFS, cap, r) && r.isRowHit
  {
  }

  /** The policy's comparator: which of the requests at positions `i`
      and `j` it keeps. */
  function Compare(ctrl: ControllerView, policy: SchedPolicy, cap: int, q: seq<Request>, i: nat, j: nat): (w: nat)
    requires i < |q| && j < |q| && Addressable(ctrl, policy, q)
    ensures w == i || w == j
  {
    if policy == FCFS then
      if q[i].arrive <= q[j].arrive then i else j
    else
      var ready1 := Ready(ctrl, policy, cap, q[i]);
      var ready2 := Ready(ctrl, policy, cap, q[j]);
      if ready1 != ready2 then
        if ready1 then i else j
      else if q[i].arrive <= q[j].arrive then i else j
  }

  /** The ranking the comparator implements: `a` ranks no lower than `b`
      when it is ready and `b` is not, or when both or neither are ready
      and `a` arrived no later. */
  predicate RanksFirst(ctrl: ControllerView, policy: SchedPolicy, cap: int, a: Request, b: Request)
    requires policy == FRFCFS_Cap ==> ctrl.rowLevel < |a.addrVec| && ctrl.rowLevel < |b.addrVec|
  {
    (Ready(ctrl, policy, cap, a) && !Ready(ctrl, policy, cap, b))
    || (Ready(ctrl, policy, cap, a) == Ready(ctrl, policy, cap, b) && a.arrive <= b.arrive)
  }

  predicate Increasing(idxs: seq<nat>) {
    forall a, b :: 0 <= a < b < |idxs| ==> idxs[a] < idxs[b]
  }

  predicate InQueue(idxs: seq<nat>, q: seq<Request>) {
    forall k :: 0 <= k < |idxs| ==> idxs[k] < |q|
  }

  /** The positions `0 .. n-1` in order. */
  function Upto(n: nat): (s: seq<nat>)
    ensures |s| == n && forall k :: 0 <= k < n ==> s[k] == k
  {
    if n == 0 then [] else Upto(n - 1) + [n - 1]
  }

  /** The comparator folded from the left over the requests at `idxs`,
      starting from the first of them; `|q|` when `idxs` is empty. */
  function Fold(ctrl: ControllerView, policy: SchedPolicy, cap: int, q: seq<Request>, idxs: seq<nat>): (h: nat)
    requires InQueue(idxs, q) && Addressable(ctrl, policy, q)
    ensures idxs == [] ==> h == |q|
    ensures idxs != [] ==> h in idxs && h < |q|
    decreases |idxs|
  {
    if |idxs| == 0 then |q|
    else if |idxs| == 1 then idxs[0]
    else Compare(ctrl, policy, cap, q, Fold(ctrl, policy, cap, q, idxs[..|idxs| - 1]), idxs[|idxs| - 1])
  }

  lemma RanksFirstTotal(ctrl: ControllerView, policy: SchedPolicy, cap: int, a: Request, b: Request)
    requires policy == FRFCFS_Cap ==> ctrl.rowLevel < |a.addrVec| && ctrl.rowLevel < |b.addrVec|
    ensures RanksFirst(ctrl, policy, cap, a, b) || RanksFirst(ctrl, policy, cap, b, a)
  {
  }

  lemma RanksFirstTransitive(ctrl: ControllerView, policy: SchedPolicy, cap: int, a: Request, b: Request, c: Request)
    requires policy == FRFCFS_Cap ==>
               ctrl.rowLevel < |a.addrVec| && ctrl.rowLevel < |b.addrVec| && ctrl.rowLevel < |c.addrVec|
    requires RanksFirst(ctrl, policy, cap, a, b) && RanksFirst(ctrl, policy, cap, b, c)
    ensures RanksFirst(ctrl, policy, cap, a, c)
  {
  }

  /** The comparator keeps its left operand exactly when that ranks first. */
  lemma CompareKeepsFirstRanked(ctrl: ControllerView, policy: SchedPolicy, cap: int, q: seq<Request>, i: nat, j: nat)
    requires i < |q| && j < |q| && i != j && Addressable(ctrl, policy, q)
    ensures Compare(ctrl, policy, cap, q, i, j) == i <==> RanksFirst(ctrl, policy, cap, q[i], q[j])
  {
  }

  /** Dropping the last position of an increasing sequence leaves the
      positions before it. */
  lemma InitOfIncreasing(idxs: seq<nat>, j: nat)
    requires Increasing(idxs) && |idxs| > 0 && j in idxs && j != idxs[|idxs| - 1]
    ensures j in idxs[..|idxs| - 1] && j < idxs[|idxs| - 1]
  {
    var a :| 0 <= a < |idxs| && idxs[a] == j;
    assert idxs[..|idxs| - 1][a] == j;
  }

  /** Ranking is transitive, stated for the case where the chain breaks:
      if `a` ranks first against `b` but not against `c`, then `b` does not
      rank first against `c`. */
  lemma RanksFirstBreaks(ctrl: ControllerView, policy: SchedPolicy, cap: int, a: Request, b: Request, c: Request)
    requires policy == FRFCFS_Cap ==>
               ctrl.rowLevel < |a.addrVec| && ctrl.rowLevel < |b.addrVec| && ctrl.rowLevel < |c.addrVec|
    requires RanksFirst(ctrl, policy, cap, a, b) && !RanksFirst(ctrl, policy, cap, a, c)
    ensures !RanksFirst(ctrl, policy, cap, b, c)
  {
  }

  /** The fold's head `h` over `idxs`: it ranks first against every
      request there, and strictly first against every one before it. */
  ghost predicate FirstBest(ctrl: ControllerView, policy: SchedPolicy, cap: int, q: seq<Request>,
                            idxs: seq<nat>, h: nat)
    requires InQueue(idxs, q) && h < |q| && Addressable(ctrl, policy, q)
  {
    && (forall j :: j in idxs ==> RanksFirst(ctrl, policy, cap, q[h], q[j]))
    && (forall j :: j in idxs && j < h ==> !RanksFirst(ctrl, policy, cap, q[j], q[h]))
  }

  /** The last position loses to the head so far: the head stays. */
  lemma FirstBestKeepsHead(ctrl: ControllerView, policy: SchedPolicy, cap: int, q: seq<Request>,
                           idxs: seq<nat>, prev: nat)
    requires InQueue(idxs, q) && Increasing(idxs) && Addressable(ctrl, policy, q) && |idxs| > 1
    requires prev in idxs[..|idxs| - 1]
    requires FirstBest(ctrl, policy, cap, q, idxs[..|idxs| - 1], prev)
    requires RanksFirst(ctrl, policy, cap, q[prev], q[idxs[|idxs| - 1]])
    ensures FirstBest(ctrl, policy, cap, q, idxs, prev)
  {
    var last := idxs[|idxs| - 1];
    InitOfIncreasing(idxs, prev);
    forall j | j in idxs
      ensures RanksFirst(ctrl, policy, cap, q[prev], q[j])
    {
      if j != last {
        InitOfIncreasing(idxs, j);
      }
    }
    forall j | j in idxs && j < prev
      ensures !RanksFirst(ctrl, policy, cap, q[j], q[prev])
    {
      InitOfIncreasing(idxs, j);
    }
  }

  /** The last position beats the head so far: it becomes the head. */
  lemma FirstBestTakesLast(ctrl: ControllerView, policy: SchedPolicy, cap: int, q: seq<Request>,
                           idxs: seq<nat>, prev: nat)
    requires InQueue(idxs, q) && Increasing(idxs) && Addressable(ctrl, policy, q) && |idxs| > 1
    requires prev in idxs[..|idxs| - 1]
    requires FirstBest(ctrl, policy, cap, q, idxs[..|idxs| - 1], prev)
    requires !RanksFirst(ctrl, policy, cap, q[prev], q[idxs[|idxs| - 1]])
    ensures FirstBest(ctrl, policy, cap, q, idxs, idxs[|idxs| - 1])
  {
    var last := idxs[|idxs| - 1];
    RanksFirstTotal(ctrl, policy, cap, q[prev], q[last]);
    forall j | j in idxs
      ensures RanksFirst(ctrl, policy, cap, q[last], q[j])
    {
      if j != last {
        InitOfIncreasing(idxs, j);
        RanksFirstTransitive(ctrl, policy, cap, q[last], q[prev], q[j]);
      }
    }
    forall j | j in idxs && j < last
      ensures !RanksFirst(ctrl, policy, cap, q[j], q[last])
    {
      InitOfIncreasing(idxs, j);
      RanksFirstBreaks(ctrl, policy, cap, q[prev], q[j], q[last]);
    }
  }

  /** The fold picks the earliest position among the best-ranked requests:
      it ranks first against every request, and strictly first against
      every request before it. */
  lemma {:induction false} FoldPicksFirstBest(ctrl: ControllerView, policy: SchedPolicy, cap: int,
                                              q: seq<Request>, idxs: seq<nat>)
    requires InQueue(idxs, q) && Increasing(idxs) && Addressable(ctrl, policy, q) && idxs != []
    ensures var h := Fold(ctrl, policy, cap, q, idxs);
      && h in idxs
      && (forall j :: j in idxs ==> RanksFirst(ctrl, policy, cap, q[h], q[j]))
      && (forall j :: j in idxs && j < h ==> !RanksFirst(ctrl, policy, cap, q[j], q[h]))
    decreases |idxs|
  {
    var h := Fold(ctrl, policy, cap, q, idxs);
    var last := idxs[|idxs| - 1];
    if |idxs| == 1 {
      assert idxs == [last];
    } else {
      var init := idxs[..|idxs| - 1];
      assert InQueue(init, q) && Increasing(init);
      FoldPicksFirstBest(ctrl, policy, cap, q, init);
      var prev := Fold(ctrl, policy, cap, q, init);
      assert h == Compare(ctrl, policy, cap, q, prev, last);
      InitOfIncreasing(idxs, prev);
      CompareKeepsFirstRanked(ctrl, policy, cap, q, prev, last);
      if h == prev {
        FirstBestKeepsHead(ctrl, policy, cap, q, idxs, prev);
      } else {
        FirstBestTakesLast(ctrl, policy, cap, q, idxs, prev);
      }
      assert FirstBest(ctrl, policy, cap, q, idxs, h);
    }
  }

  /** The row group a request would close with a precharge: the first
      `scope[PRE] + 1` levels of its address. */
  function PreGroup(ctrl: ControllerView, r: Request): AddrVec
    requires ctrl.preScope < |r.addrVec|
  {
    r.addrVec[..ctrl.preScope + 1]
  }

  /** The row groups of the row-hit requests among the first `n`, in queue
      order (the `hit_reqs` vector). */
  function HitGroups(ctrl: ControllerView, q: seq<Request>, n: nat): (groups: seq<AddrVec>)
    requires n <= |q| && Addressable(ctrl, FRFCFS_PriorHit, q)
    ensures |groups| <= n
  {
    if n == 0 then []
    else HitGroups(ctrl, q, n - 1) + (if q[n - 1].isRowHit then [PreGroup(ctrl, q[n - 1])] else [])
  }

  /** A row group is in `hit_reqs` exactly when some row hit among the
      first `n` requests lies in it. */
  lemma {:induction false} HitGroupsMembers(ctrl: ControllerView, q: seq<Request>, n: nat, g: AddrVec)
    requires n <= |q| && Addressable(ctrl, FRFCFS_PriorHit, q)
    ensures g in HitGroups(ctrl, q, n) <==> exists j :: 0 <= j < n && q[j].isRowHit && PreGroup(ctrl, q[j]) == g
  {
    if n > 0 {
      HitGroupsMembers(ctrl, q, n - 1, g);
    }
  }

  /** A request the prioritise-hit policy passes over: it is not a hit, its
      row group has another row open, and closing that row group would
      destroy the row hit of some pending request. */
  predicate ViolatesHit(ctrl: ControllerView, q: seq<Request>, i: nat)
    requires i < |q| && Addressable(ctrl, FRFCFS_PriorHit, q)
  {
    !q[i].isRowHit && q[i].isRowOpen && PreGroup(ctrl, q[i]) in HitGroups(ctrl, q, |q|)
  }

  /** A request violates a hit exactly when it is not a hit, its row group
      has a row open, and some pending row hit lies in the same precharge
      row group. */
  lemma ViolatesHitMeansSharedGroup(ctrl: ControllerView, q: seq<Request>, i: nat)
    requires i < |q| && Addressable(ctrl, FRFCFS_PriorHit, q)
    ensures ViolatesHit(ctrl, q, i) <==>
      && !q[i].isRowHit && q[i].isRowOpen
      && exists j :: 0 <= j < |q| && q[j].isRowHit && PreGroup(ctrl, q[j]) == PreGroup(ctrl, q[i])
  {
    HitGroupsMembers(ctrl, q, |q|, PreGroup(ctrl, q[i]));
  }

  /** The positions among the first `n` that do not violate a hit. */
  function Kept(ctrl: ControllerView, q: seq<Request>, n: nat): (idxs: seq<nat>)
    requires n <= |q| && Addressable(ctrl, FRFCFS_PriorHit, q)
    ensures forall k :: 0 <= k < |idxs| ==> idxs[k] < n
    ensures InQueue(idxs, q)
  {
    if n == 0 then []
    else Kept(ctrl, q, n - 1) + (if ViolatesHit(ctrl, q, n - 1) then [] else [n - 1])
  }

  /** The kept positions are in queue order. */
  lemma {:induction false} KeptIncreasing(ctrl: ControllerView, q: seq<Request>, n: nat)
    requires n <= |q| && Addressable(ctrl, FRFCFS_PriorHit, q)
    ensures Increasing(Kept(ctrl, q, n))
  {
    if n > 0 {
      KeptIncreasing(ctrl, q, n - 1);
    }
  }

  /** The kept positions are exactly those that do not violate a hit. */
  lemma {:induction false} KeptMembers(ctrl: ControllerView, q: seq<Request>, n: nat, i: nat)
    requires n <= |q| && Addressable(ctrl, FRFCFS_PriorHit, q)
    ensures i in Kept(ctrl, q, n) <==> i < n && !ViolatesHit(ctrl, q, i)
  {
    if n > 0 {
      KeptMembers(ctrl, q, n - 1, i);
    }
  }

  lemma KeptStep(ctrl: ControllerView, q: seq<Request>, i: nat)
    requires i < |q| && Addressable(ctrl, FRFCFS_PriorHit, q)
    ensures Kept(ctrl, q, i + 1) == Kept(ctrl, q, i) + (if ViolatesHit(ctrl, q, i) then [] else [i])
  {
  }

  /** Folding one more position compares it with the fold so far. */
  lemma FoldSnoc(ctrl: ControllerView, policy: SchedPolicy, cap: int, q: seq<Request>, idxs: seq<nat>, i: nat)
    requires InQueue(idxs, q) && i < |q| && Addressable(ctrl, policy, q)
    ensures InQueue(idxs + [i], q)
    ensures Fold(ctrl, policy, cap, q, idxs + [i]) ==
            if idxs == [] then i else Compare(ctrl, policy, cap, q, Fold(ctrl, policy, cap, q, idxs), i)
  {
    assert (idxs + [i])[..|idxs|] == idxs;
  }

  /** What `get_head` returns: the fold of the policy's comparator over the
      queue; for the prioritise-hit policy, the ready row hit that fold
      finds if there is one, and otherwise the first-ready fold over the
      requests that do not violate a hit. */
  function Head(ctrl: ControllerView, policy: SchedPolicy, cap: int, q: seq<Request>): (h: nat)
    requires Addressable(ctrl, policy, q)
    ensures h <= |q|
  {
    if policy != FRFCFS_PriorHit then Fold(ctrl, policy, cap, q, Upto(|q|))
    else if |q| == 0 then |q|
    else
      var c := Fold(ctrl, FRFCFS_PriorHit, cap, q, Upto(|q|));
      if q[c].isReady && q[c].isRowHit then c
      else Fold(ctrl, FRFCFS, cap, q, Kept(ctrl, q, |q|))
  }

  /** The whole queue, position by position. */
  lemma UptoCoversQueue(q: seq<Request>)
    ensures InQueue(Upto(|q|), q) && Increasing(Upto(|q|))
    ensures forall j :: 0 <= j < |q| ==> j in Upto(|q|)
  {
    forall j | 0 <= j < |q|
      ensures j in Upto(|q|)
    {
      assert Upto(|q|)[j] == j;
    }
  }

  /** Outside the prioritise-hit policy, `get_head` serves nothing exactly
      when the queue is empty; otherwise its head ranks first against every
      request, and strictly first against every earlier one. */
  lemma HeadIsFirstBest(ctrl: ControllerView, policy: SchedPolicy, cap: int, q: seq<Request>)
    requires policy != FRFCFS_PriorHit && Addressable(ctrl, policy, q)
    ensures Head(ctrl, policy, cap, q) == |q| <==> |q| == 0
    ensures var h := Head(ctrl, policy, cap, q);
      h < |q| ==>
        && (forall j :: 0 <= j < |q| ==> RanksFirst(ctrl, policy, cap, q[h], q[j]))
        && (forall j :: 0 <= j < h ==> !RanksFirst(ctrl, policy, cap, q[j], q[h]))
  {
    if |q| > 0 {
      UptoCoversQueue(q);
      FoldPicksFirstBest(ctrl, policy, cap, q, Upto(|q|));
    }
  }

  /** First come, first served: the head arrived no later than any request,
      and every earlier request arrived strictly later. */
  lemma FcfsServesOldest(ctrl: ControllerView, cap: int, q: seq<Request>)
    requires |q| > 0
    ensures var h := Head(ctrl, FCFS, cap, q);
      && h < |q|
      && (forall j :: 0 <= j < |q| ==> q[h].arrive <= q[j].arrive)
      && (forall j :: 0 <= j < h ==> q[h].arrive < q[j].arrive)
  {
    HeadIsFirstBest(ctrl, FCFS, cap, q);
  }

  /** Under first-ready scheduling, with or without the hit cap, the head
      is ready whenever some request is, and otherwise it is the oldest
      request. */
  lemma ReadyRequestsComeFirst(ctrl: ControllerView, policy: SchedPolicy, cap: int, q: seq<Request>)
    requires (policy == FRFCFS || policy == FRFCFS_Cap) && Addressable(ctrl, policy, q) && |q| > 0
    ensures var h := Head(ctrl, policy, cap, q);
      && h < |q|
      && (Ready(ctrl, policy, cap, q[h]) <==> exists i :: 0 <= i < |q| && Ready(ctrl, policy, cap, q[i]))
      && (!Ready(ctrl, policy, cap, q[h]) ==> forall j :: 0 <= j < |q| ==> q[h].arrive <= q[j].arrive)
  {
    HeadIsFirstBest(ctrl, policy, cap, q);
  }

  /** Under the hit cap, a ready request whose row has served more than
      `cap` hits loses to any ready request whose row has not. */
  lemma CapDemotesBusyRow(ctrl: ControllerView, cap: int, q: seq<Request>, busy: nat, idle: nat)
    requires Addressable(ctrl, FRFCFS_Cap, q) && busy < |q| && idle < |q|
    requires q[busy].isReady && GetHits(ctrl.rowTable, ctrl.rowLevel, q[busy].addrVec, false) > cap
    requires q[idle].isReady && GetHits(ctrl.rowTable, ctrl.rowLevel, q[idle].addrVec, false) <= cap
    ensures Head(ctrl, FRFCFS_Cap, cap, q) != busy
  {
    HeadIsFirstBest(ctrl, FRFCFS_Cap, cap, q);
  }

  /** Prioritise-hit, first pass: when some request is a ready row hit, the
      head is the oldest ready row hit, the earliest in the queue on a tie. */
  lemma PriorHitServesReadyHit(ctrl: ControllerView, cap: int, q: seq<Request>, i: nat)
    requires Addressable(ctrl, FRFCFS_PriorHit, q) && i < |q| && q[i].isReady && q[i].isRowHit
    ensures var h := Head(ctrl, FRFCFS_PriorHit, cap, q);
      && h < |q| && q[h].isReady && q[h].isRowHit
      && (forall j :: 0 <= j < |q| && q[j].isReady && q[j].isRowHit ==> q[h].arrive <= q[j].arrive)
      && (forall j :: 0 <= j < h && q[j].isReady && q[j].isRowHit ==> q[h].arrive < q[j].arrive)
  {
    UptoCoversQueue(q);
    FoldPicksFirstBest(ctrl, FRFCFS_PriorHit, cap, q, Upto(|q|));
    var c := Fold(ctrl, FRFCFS_PriorHit, cap, q, Upto(|q|));
    assert RanksFirst(ctrl, FRFCFS_PriorHit, cap, q[c], q[i]);
    assert Head(ctrl, FRFCFS_PriorHit, cap, q) == c;
    forall j | 0 <= j < |q| && q[j].isReady && q[j].isRowHit
      ensures q[c].arrive <= q[j].arrive
    {
      assert RanksFirst(ctrl, FRFCFS_PriorHit, cap, q[c], q[j]);
    }
    forall j | 0 <= j < c && q[j].isReady && q[j].isRowHit
      ensures q[c].arrive < q[j].arrive
    {
      assert !RanksFirst(ctrl, FRFCFS_PriorHit, cap, q[j], q[c]);
    }
  }

  /** Prioritise-hit, second pass: with no ready row hit, the head is
      `|q|` exactly when every request violates a hit; otherwise it violates
      none and ranks first, by first-ready order, against every request
      that violates none, the earliest such on a tie. */
  lemma PriorHitFallback(ctrl: ControllerView, cap: int, q: seq<Request>)
    requires Addressable(ctrl, FRFCFS_PriorHit, q)
    requires forall i :: 0 <= i < |q| ==> !(q[i].isReady && q[i].isRowHit)
    ensures var h := Head(ctrl, FRFCFS_PriorHit, cap, q);
      && (h == |q| <==> forall i :: 0 <= i < |q| ==> ViolatesHit(ctrl, q, i))
      && (h < |q| ==>
            && !ViolatesHit(ctrl, q, h)
            && (forall j :: 0 <= j < |q| && !ViolatesHit(ctrl, q, j) ==> RanksFirst(ctrl, FRFCFS, cap, q[h], q[j]))
            && (forall j :: 0 <= j < h && !ViolatesHit(ctrl, q, j) ==> !RanksFirst(ctrl, FRFCFS, cap, q[j], q[h])))
  {
    if |q| > 0 {
      var h := Head(ctrl, FRFCFS_PriorHit, cap, q);
      var kept := Kept(ctrl, q, |q|);
      assert h == Fold(ctrl, FRFCFS, cap, q, kept);
      if kept == [] {
        forall i | 0 <= i < |q|
          ensures ViolatesHit(ctrl, q, i)
        {
          KeptMembers(ctrl, q, |q|, i);
        }
      } else {
        KeptIncreasing(ctrl, q, |q|);
        FoldPicksFirstBest(ctrl, FRFCFS, cap, q, kept);
        KeptMembers(ctrl, q, |q|, h);
        forall j | 0 <= j < |q| && !ViolatesHit(ctrl, q, j)
          ensures RanksFirst(ctrl, FRFCFS, cap, q[h], q[j])
          ensures j < h ==> !RanksFirst(ctrl, FRFCFS, cap, q[j], q[h])
        {
          KeptMembers(ctrl, q, |q|, j);
        }
      }
    }
  }

  /** The prioritise-hit policy never serves a request whose precharge would
      close the row of a pending row hit. */
  lemma PriorHitKeepsHits(ctrl: ControllerView, cap: int, q: seq<Request>)
    requires Addressable(ctrl, FRFCFS_PriorHit, q)
    ensures var h := Head(ctrl, FRFCFS_PriorHit, cap, q);
      h < |q| ==> !ViolatesHit(ctrl, q, h)
  {
    var h := Head(ctrl, FRFCFS_PriorHit, cap, q);
    if h < |q| && !q[h].isRowHit {
      KeptMembers(ctrl, q, |q|, h);
    }
  }

  /** A concrete case of the second pass: an older request for another row
      of a bank whose open row a younger, not yet ready request hits is
      passed over, and the younger one is the head. */
  lemma PriorHitSkipsConflictingRequest(ctrl: ControllerView, cap: int)
    requires ctrl.preScope == 0
    ensures var older := Request([3, 5], 0, true, false, true);
      var younger := Request([3, 7], 1, false, true, true);
      Head(ctrl, FRFCFS_PriorHit, cap, [older, younger]) == 1
  {
    var older := Request([3, 5], 0, true, false, true);
    var younger := Request([3, 7], 1, false, true, true);
    var q := [older, younger];
    assert PreGroup(ctrl, older) == [3] == PreGroup(ctrl, younger);
    assert HitGroups(ctrl, q, 1) == [];
    assert HitGroups(ctrl, q, 2) == [[3]];
    assert ViolatesHit(ctrl, q, 0);
    assert !ViolatesHit(ctrl, q, 1);
    assert Kept(ctrl, q, 1) == [];
    assert Kept(ctrl, q, 2) == [1];
  }

  const DEFAULT_CAP := 16

  class Scheduler {
    const policy: SchedPolicy
    /** The most hits a row may have served and still count as ready under
        `FRFCFS_Cap`. */
    const cap: int

    constructor (name: string)
      ensures policy == SchedPolicyFor(name).policy && cap == DEFAULT_CAP
    {
      policy := SchedPolicyFor(name).policy;
      cap := DEFAULT_CAP;
    }

    /** `get_head`. */
    method GetHead(ctrl: ControllerView, q: seq<Request>) returns (head: nat)
      requires Addressable(ctrl, policy, q)
      ensures head == Head(ctrl, policy, cap, q)
    {
      if policy != FRFCFS_PriorHit {
        if |q| == 0 {
          return |q|;
        }
        head := FoldQueue(ctrl, policy, q);
        return;
      }

      if |q| == 0 {
        return |q|;
      }
      head := FoldQueue(ctrl, FRFCFS_PriorHit, q);
      if q[head].isReady && q[head].isRowHit {
        return;
      }

      var hitReqs := HitRequestGroups(ctrl, q);
      head := FoldUnviolated(ctrl, q, hitReqs);
    }

    /** The `hit_reqs` loop: the precharge row group of every row hit. */
    method HitRequestGroups(ctrl: ControllerView, q: seq<Request>) returns (hitReqs: seq<AddrVec>)
      requires Addressable(ctrl, FRFCFS_PriorHit, q)
      ensures hitReqs == HitGroups(ctrl, q, |q|)
    {
      hitReqs := [];
      for i := 0 to |q|
        invariant hitReqs == HitGroups(ctrl, q, i)
      {
        if q[i].isRowHit {
          hitReqs := hitReqs + [q[i].addrVec[..ctrl.preScope + 1]];
        }
      }
    }

    /** The second pass of the prioritise-hit policy: the first-ready fold
        over the requests that do not violate a hit, `|q|` if there are
        none. */
    method FoldUnviolated(ctrl: ControllerView, q: seq<Request>, hitReqs: seq<AddrVec>) returns (head: nat)
      requires Addressable(ctrl, FRFCFS_PriorHit, q) && hitReqs == HitGroups(ctrl, q, |q|)
      ensures head == Fold(ctrl, FRFCFS, cap, q, Kept(ctrl, q, |q|))
    {
      head := |q|;
      ghost var kept: seq<nat> := [];
      for i := 0 to |q|
        invariant kept == Kept(ctrl, q, i)
        invariant head == Fold(ctrl, FRFCFS, cap, q, kept)
      {
        var violateHit := IsViolating(ctrl, q, hitReqs, i);
        if !violateHit {
          head := FoldIn(ctrl, q, kept, head, i);
          kept := kept + [i];
        }
      }
    }

    /** A request that violates no hit becomes the head if there is none
        yet, and is compared with the head otherwise. */
    method FoldIn(ctrl: ControllerView, q: seq<Request>, ghost kept: seq<nat>, head: nat, i: nat)
      returns (next: nat)
      requires InQueue(kept, q) && i < |q| && head == Fold(ctrl, FRFCFS, cap, q, kept)
      ensures next == Fold(ctrl, FRFCFS, cap, q, kept + [i])
    {
      FoldSnoc(ctrl, FRFCFS, cap, q, kept, i);
      if head == |q| {
        next := i;
      } else {
        next := Compare(ctrl, FRFCFS, cap, q, head, i);
      }
    }

    /** Whether the request at `i` would close a row group holding a
        pending row hit. */
    static method IsViolating(ctrl: ControllerView, q: seq<Request>, hitReqs: seq<AddrVec>, i: nat)
      returns (violateHit: bool)
      requires i < |q| && Addressable(ctrl, FRFCFS_PriorHit, q) && hitReqs == HitGroups(ctrl, q, |q|)
      ensures violateHit == ViolatesHit(ctrl, q, i)
      ensures Kept(ctrl, q, i + 1) == Kept(ctrl, q, i) + (if violateHit then [] else [i])
    {
      KeptStep(ctrl, q, i);
      violateHit := false;
      if !q[i].isRowHit && q[i].isRowOpen {
        violateHit := Contains(hitReqs, PreGroup(ctrl, q[i]));
      }
    }

    /** The search of `hit_reqs` for a row group, stopping at the first
        match. */
    static method Contains(hitReqs: seq<AddrVec>, rowgroup: AddrVec) returns (found: bool)
      ensures found <==> rowgroup in hitReqs
    {
      found := false;
      for k := 0 to |hitReqs|
        invariant found <==> rowgroup in hitReqs[..k]
      {
        if rowgroup == hitReqs[k] {
          found := true;
          break;
        }
      }
    }

    /** The loop `head = compare(head, itr)` over a non-empty queue. */
    method FoldQueue(ctrl: ControllerView, ranking: SchedPolicy, q: seq<Request>) returns (head: nat)
      requires |q| > 0 && Addressable(ctrl, ranking, q)
      ensures head == Fold(ctrl, ranking, cap, q, Upto(|q|))
    {
      head := 0;
      for i := 1 to |q|
        invariant head == Fold(ctrl, ranking, cap, q, Upto(i))
      {
        assert Upto(i + 1)[..i] == Upto(i);
        head := Compare(ctrl, ranking, cap, q, head, i);
      }
    }
  }
}
