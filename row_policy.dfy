/** The row policy: which open row group the controller should close when it
    has a closing command to spend. */
module RowPolicies {
  import opened AddressVectors
  import opened RowTables
  import opened PolicyNames
  import Configs

  datatype RowPolicyKind = Closed | ClosedAP | Opened | Timeout

  /** The row policy a configured name selects: the lower-cased name picks
      one of the four, anything else keeps `Opened`, and only a non-empty
      unrecognised name warns. */
  function RowPolicyFor(name: string): (s: Selection<RowPolicyKind>)
    ensures s.policy == Closed <==> ToLower(name) == "closed"
    ensures s.policy == ClosedAP <==> ToLower(name) == "closedap"
    ensures s.policy == Timeout <==> ToLower(name) == "timeout"
    ensures s.warning <==> name != Configs.Missing && s.policy == Opened && ToLower(name) != "opened"
  {
    var policy := ToLower(name);
    if policy == "closed" then Selection(Closed, false)
    else if policy == "closedap" then Selection(ClosedAP, false)
    else if policy == "opened" then Selection(Opened, false)
    else if policy == "timeout" then Selection(Timeout, false)
    else Selection(Opened, policy != Configs.Missing)
  }

  /** The row policy does not depend on the case of its name. */
  lemma RowPolicyIgnoresCase(name: string)
    ensures RowPolicyFor(ToLower(name)) == RowPolicyFor(name)
  {
    ToLowerIdempotent(name);
  }

  /** The row groups a policy may pick as victim at cycle `clk`: those whose
      closing command `isReady` allows; under `Timeout` only those not
      accessed for `timeout` cycles; under `Opened` none. */
  predicate Eligible(policy: RowPolicyKind, timeout: int, t: Table, clk: int,
                     isReady: AddrVec -> bool, key: AddrVec)
  {
    key in t &&
    match policy
    case Closed => isReady(key)
    case ClosedAP => isReady(key)
    case Opened => false
    case Timeout => !(clk - t[key].timestamp < timeout) && isReady(key)
  }

  /** The scan over the table in key order, returning the first key that
      `accept` takes, or the empty vector when there is none. The map's key
      order is the lexicographic order, so the first accepted key is the
      least accepted one. */
  method FirstAccepted(t: Table, accept: AddrVec -> bool) returns (key: AddrVec)
    ensures (forall k :: k in t ==> !accept(k)) ==> key == []
    ensures (exists k :: k in t && accept(k)) ==>
              key in t && accept(key) && forall k :: k in t && accept(k) ==> k == key || LexLess(key, k)
  {
    key := [];
    var found := false;
    var pending := t.Keys;
    while pending != {}
      invariant pending <= t.Keys
      invariant found <==> exists k :: k in t && k !in pending && accept(k)
      invariant !found ==> key == []
      invariant found ==> key in t && accept(key) &&
                          forall k :: k in t && k !in pending && accept(k) ==> k == key || LexLess(key, k)
      decreases pending
    {
      var k :| k in pending;
      if accept(k) && (!found || LexLess(k, key)) {
        if found {
          forall j | j in t && j !in pending && accept(j)
            ensures j == k || LexLess(k, j)
          {
            if j != key {
              LexLessTransitive(k, key, j);
            }
          }
        }
        key, found := k, true;
      } else if accept(k) {
        if k != key {
          LexLessTotal(k, key);
        }
      }
      pending := pending - {k};
    }
  }

  class RowPolicy {
    const policy: RowPolicyKind
    /** Cycles a row group must go unaccessed before `Timeout` closes it. */
    const timeout: int

    constructor (name: string)
      ensures policy == RowPolicyFor(name).policy && timeout == 50
    {
      policy := RowPolicyFor(name).policy;
      timeout := 50;
    }

    /** `get_victim`: `t` is the row table, `clk` the controller's cycle and
        `isReady(key)` whether the closing command is legal for that row
        group now. Returns the least eligible row group in key order, or
        the empty vector when no row group is eligible. */
    method GetVictim(t: Table, clk: int, isReady: AddrVec -> bool) returns (victim: AddrVec)
      ensures (forall k :: !Eligible(policy, timeout, t, clk, isReady, k)) ==> victim == []
      ensures (exists k :: Eligible(policy, timeout, t, clk, isReady, k)) ==>
                && Eligible(policy, timeout, t, clk, isReady, victim)
                && forall k :: Eligible(policy, timeout, t, clk, isReady, k) ==> k == victim || LexLess(victim, k)
    {
      match policy
      case Closed =>
        victim := FirstAccepted(t, isReady);
        assert forall k :: Eligible(policy, timeout, t, clk, isReady, k) <==> k in t && isReady(k);
      case ClosedAP =>
        victim := FirstAccepted(t, isReady);
        assert forall k :: Eligible(policy, timeout, t, clk, isReady, k) <==> k in t && isReady(k);
      case Opened =>
        victim := [];
      case Timeout =>
        var accept := k => k in t && !(clk - t[k].timestamp < timeout) && isReady(k);
        victim := FirstAccepted(t, accept);
        assert forall k :: Eligible(policy, timeout, t, clk, isReady, k) <==> k in t && accept(k);
    }
  }

  /** `Opened` never proposes a victim, whatever the table holds. */
  lemma OpenedNeverCloses(t: Table, clk: int, isReady: AddrVec -> bool, timeout: int)
    ensures forall k :: !Eligible(Opened, timeout, t, clk, isReady, k)
  {
  }

  /** With the 50-cycle timeout, a row group last accessed at cycle 10 is
      not a victim at cycle 40 but is one at cycle 61 once its close is
      legal. */
  lemma TimeoutWindow(t: Table, key: AddrVec, isReady: AddrVec -> bool)
    requires key in t && t[key].timestamp == 10 && isReady(key)
    ensures !Eligible(Timeout, 50, t, 40, isReady, key)
    ensures Eligible(Timeout, 50, t, 61, isReady, key)
  {
  }

  /** The victim is a single row group: two victims for the same table and
      facts coincide. */
  lemma {:induction false} VictimIsUnique(policy: RowPolicyKind, timeout: int, t: Table, clk: int,
                                          isReady: AddrVec -> bool, v1: AddrVec, v2: AddrVec)
    requires Eligible(policy, timeout, t, clk, isReady, v1) && Eligible(policy, timeout, t, clk, isReady, v2)
    requires forall k :: Eligible(policy, timeout, t, clk, isReady, k) ==> k == v1 || LexLess(v1, k)
    requires forall k :: Eligible(policy, timeout, t, clk, isReady, k) ==> k == v2 || LexLess(v2, k)
    ensures v1 == v2
  {
    if v1 != v2 {
      assert LexLess(v1, v2) && LexLess(v2, v1);
      LexLessTransitive(v1, v2, v1);
      LexLessIrreflexive(v1);
    }
  }
}
