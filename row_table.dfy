/** The row-buffer occupancy table of a memory controller: for every row
    group (bank or sub-array) whose row buffer is open, the open row, the
    number of accesses it has served since opening and the cycle of its
    last open or access. */
module RowTables {
  import opened AddressVectors

  /** What the table keeps for one open row group. */
  datatype Entry = Entry(row: int, hits: nat, timestamp: int)

  /** The table itself, keyed by row group; std::map keeps its keys in
      lexicographic order (see AddressVectors.LexLess). */
  type Table = map<AddrVec, Entry>

  /** How the DRAM protocol classifies a command: whether it opens a row,
      accesses the open row, closes rows, and how many address levels its
      closing scope spans (`spec->scope[cmd]`). */
  datatype Command = Command(isOpening: bool, isAccessing: bool, isClosing: bool, scope: nat)

  /** Every key of the table is a row-group key for this row level. */
  predicate KeysAreRowGroups(t: Table, rowLevel: nat) {
    forall k :: k in t ==> |k| == rowLevel
  }

  /** `get_hits`: the accesses served by the open row of the address's row
      group; with `toOpenedRow` unset, only when that open row is the
      address's own row. */
  function GetHits(t: Table, rowLevel: nat, addr: AddrVec, toOpenedRow: bool): (hits: nat)
    requires rowLevel < |addr|
    ensures hits > 0 ==> RowGroup(addr, rowLevel) in t && hits == t[RowGroup(addr, rowLevel)].hits
    ensures hits > 0 && !toOpenedRow ==> GetOpenRow(t, rowLevel, addr) == RowOf(addr, rowLevel)
    ensures toOpenedRow || GetOpenRow(t, rowLevel, addr) == RowOf(addr, rowLevel) ==>
              hits == (if RowGroup(addr, rowLevel) in t then t[RowGroup(addr, rowLevel)].hits else 0)
  {
    var g := RowGroup(addr, rowLevel);
    if g !in t then 0
    else if !toOpenedRow && t[g].row != RowOf(addr, rowLevel) then 0
    else t[g].hits
  }

  /** `get_open_row`: the open row of the address's row group, or -1 when
      that row group is closed. */
  function GetOpenRow(t: Table, rowLevel: nat, addr: AddrVec): (row: int)
    requires rowLevel < |addr|
    ensures RowGroup(addr, rowLevel) in t ==> row == t[RowGroup(addr, rowLevel)].row
    ensures RowGroup(addr, rowLevel) !in t ==> row == -1
  {
    var g := RowGroup(addr, rowLevel);
    if g in t then t[g].row else -1
  }

  /** Number of leading address levels a closing command compares: its
      scope plus one, or the whole row-group key for a command that also
      accesses (read or write with auto-precharge). */
  function CloseWidth(cmd: Command, rowLevel: nat): (w: nat)
    ensures cmd.isAccessing ==> w == rowLevel
    ensures !cmd.isAccessing ==> w == cmd.scope + 1
  {
    (if cmd.isAccessing then rowLevel - 1 else cmd.scope) + 1
  }

  /** The opening step: `std::map::insert`, which keeps an entry that is
      already there. */
  function AfterOpen(t: Table, rowLevel: nat, cmd: Command, addr: AddrVec, clk: int): Table
    requires rowLevel < |addr|
  {
    var g := RowGroup(addr, rowLevel);
    if cmd.isOpening && g !in t then t[g := Entry(RowOf(addr, rowLevel), 0, clk)] else t
  }

  /** The accessing step: one more hit and a fresh timestamp for the row
      group's entry. */
  function AfterAccess(t: Table, rowLevel: nat, cmd: Command, addr: AddrVec, clk: int): Table
    requires rowLevel < |addr|
    requires cmd.isAccessing ==> RowGroup(addr, rowLevel) in t
  {
    var g := RowGroup(addr, rowLevel);
    if cmd.isAccessing then t[g := t[g].(hits := t[g].hits + 1, timestamp := clk)] else t
  }

  /** The entries a closing step removes. */
  function ClosingKeys(t: Table, addr: AddrVec, width: nat): set<AddrVec> {
    set k | k in t && SameLevels(k, addr, width)
  }

  /** The table without the entries that match the address on `width`
      levels. */
  function Erased(t: Table, addr: AddrVec, width: nat): Table {
    map k | k in t && !SameLevels(k, addr, width) :: t[k]
  }

  /** The closing step. */
  function AfterClose(t: Table, cmd: Command, addr: AddrVec, width: nat): Table {
    if cmd.isClosing then Erased(t, addr, width) else t
  }

  /** The conditions under which `update` is defined. It asserts that an
      access finds its row group open at the same row and that a close
      removes at least one entry. The model also requires what the C++ reads
      without checking: the address reaches the row level, and a closing
      scope stays within the row-group key. */
  predicate UpdateAllowed(t: Table, rowLevel: nat, cmd: Command, addr: AddrVec, clk: int): (ok: bool)
    ensures ok ==> rowLevel < |addr|
    ensures ok && cmd.isAccessing && !cmd.isOpening ==>
      RowGroup(addr, rowLevel) in t && t[RowGroup(addr, rowLevel)].row == RowOf(addr, rowLevel)
    ensures ok && cmd.isClosing && !cmd.isOpening ==> ClosingKeys(t, addr, CloseWidth(cmd, rowLevel)) != {}
  {
    && rowLevel < |addr|
    && (cmd.isClosing ==> CloseWidth(cmd, rowLevel) <= rowLevel)
    && var t1 := AfterOpen(t, rowLevel, cmd, addr, clk);
       && (cmd.isAccessing ==>
             RowGroup(addr, rowLevel) in t1 && t1[RowGroup(addr, rowLevel)].row == RowOf(addr, rowLevel))
       && (cmd.isClosing ==> ClosingKeys(t1, addr, CloseWidth(cmd, rowLevel)) != {})
  }

  /** The table after `update(cmd, addr, clk)`: open, then access, then close. */
  function Updated(t: Table, rowLevel: nat, cmd: Command, addr: AddrVec, clk: int): (t': Table)
    requires UpdateAllowed(t, rowLevel, cmd, addr, clk)
    ensures KeysAreRowGroups(t, rowLevel) ==> KeysAreRowGroups(t', rowLevel)
  {
    var t1 := AfterOpen(t, rowLevel, cmd, addr, clk);
    var t2 := AfterAccess(t1, rowLevel, cmd, addr, clk);
    AfterClose(t2, cmd, addr, CloseWidth(cmd, rowLevel))
  }

  /** What the erase loop has left once the keys in `pending` are still
      to be visited. */
  ghost function Remaining(t: Table, pending: set<AddrVec>, addr: AddrVec, width: nat): Table {
    map k | k in t && (k in pending || !SameLevels(k, addr, width)) :: t[k]
  }

  /** The keys the erase loop has removed so far. */
  ghost function RemovedSoFar(t: Table, pending: set<AddrVec>, addr: AddrVec, width: nat): set<AddrVec> {
    set k | k in t && k !in pending && SameLevels(k, addr, width)
  }

  /** Visiting one key removes it exactly when it matches, and counts it as
      removed only then. */
  lemma EraseStep(t: Table, pending: set<AddrVec>, k: AddrVec, addr: AddrVec, width: nat)
    requires k in pending && pending <= t.Keys
    ensures SameLevels(k, addr, width) ==>
      && Remaining(t, pending - {k}, addr, width) == Remaining(t, pending, addr, width) - {k}
      && RemovedSoFar(t, pending - {k}, addr, width) == RemovedSoFar(t, pending, addr, width) + {k}
      && k !in RemovedSoFar(t, pending, addr, width)
    ensures !SameLevels(k, addr, width) ==>
      && Remaining(t, pending - {k}, addr, width) == Remaining(t, pending, addr, width)
      && RemovedSoFar(t, pending - {k}, addr, width) == RemovedSoFar(t, pending, addr, width)
  {
  }

  /** Once every key is visited, what is left is `Erased` and what was
      removed is `ClosingKeys`. */
  lemma EraseDone(t: Table, addr: AddrVec, width: nat)
    ensures Remaining(t, {}, addr, width) == Erased(t, addr, width)
    ensures RemovedSoFar(t, {}, addr, width) == ClosingKeys(t, addr, width)
  {
  }

  class RowTable {
    /** `T::Level::Row`: the index of the row level in an address vector. */
    const rowLevel: nat
    var table: Table

    ghost predicate Valid()
      reads this
    {
      KeysAreRowGroups(table, rowLevel)
    }

    constructor (rowLevel: nat)
      ensures Valid() && this.rowLevel == rowLevel && table == map[]
    {
      this.rowLevel := rowLevel;
      table := map[];
    }

    /** `update`: the controller reports a command it issued to `addr` at
        cycle `clk`. */
    method Update(cmd: Command, addr: AddrVec, clk: int)
      requires Valid()
      requires UpdateAllowed(table, rowLevel, cmd, addr, clk)
      modifies this
      ensures Valid()
      ensures table == Updated(old(table), rowLevel, cmd, addr, clk)
    {
      var rowgroup := addr[..rowLevel];
      var row := addr[rowLevel];

      if cmd.isOpening && rowgroup !in table {
        table := table[rowgroup := Entry(row, 0, clk)];
      }

      if cmd.isAccessing {
        var e := table[rowgroup];
        assert e.row == row;
        table := table[rowgroup := e.(hits := e.hits + 1, timestamp := clk)];
      }

      if cmd.isClosing {
        var nRm := EraseMatching(addr, CloseWidth(cmd, rowLevel));
        assert nRm > 0;
      }
    }

    /** The erase loop of a close: removes every entry that
        agrees with `addr` on its first `width` levels and counts them. */
    method EraseMatching(addr: AddrVec, width: nat) returns (nRm: nat)
      requires Valid()
      modifies this
      ensures Valid()
      ensures table == Erased(old(table), addr, width)
      ensures nRm == |ClosingKeys(old(table), addr, width)|
    {
      nRm := 0;
      ghost var removed: set<AddrVec> := {};
      var pending := table.Keys;
      assert table == Remaining(old(table), pending, addr, width);
      while pending != {}
        invariant pending <= old(table).Keys
        invariant removed == RemovedSoFar(old(table), pending, addr, width)
        invariant nRm == |removed|
        invariant table == Remaining(old(table), pending, addr, width)
        decreases pending
      {
        var k :| k in pending;
        EraseStep(old(table), pending, k, addr, width);
        if SameLevels(k, addr, width) {
          nRm := nRm + 1;
          table := table - {k};
          removed := removed + {k};
        }
        pending := pending - {k};
      }
      EraseDone(old(table), addr, width);
      assert removed == ClosingKeys(old(table), addr, width);
    }
  }

  /** Opening a row group that is closed records the address's row with no
      hits, stamped with the current cycle; every other entry is kept. */
  lemma OpeningClosedGroup(t: Table, rowLevel: nat, cmd: Command, addr: AddrVec, clk: int)
    requires cmd.isOpening && !cmd.isAccessing && !cmd.isClosing
    requires UpdateAllowed(t, rowLevel, cmd, addr, clk)
    requires RowGroup(addr, rowLevel) !in t
    ensures var t' := Updated(t, rowLevel, cmd, addr, clk);
      && GetOpenRow(t', rowLevel, addr) == RowOf(addr, rowLevel)
      && GetHits(t', rowLevel, addr, true) == 0
      && t'[RowGroup(addr, rowLevel)].timestamp == clk
      && t'.Keys == t.Keys + {RowGroup(addr, rowLevel)}
      && forall k :: k in t ==> t'[k] == t[k]
  {
  }

  /** Opening a row group that already has an entry changes nothing: the
      insert keeps the old entry, its row, hits and timestamp. */
  lemma OpeningOpenGroupKeepsEntry(t: Table, rowLevel: nat, cmd: Command, addr: AddrVec, clk: int)
    requires cmd.isOpening && !cmd.isAccessing && !cmd.isClosing
    requires UpdateAllowed(t, rowLevel, cmd, addr, clk)
    requires RowGroup(addr, rowLevel) in t
    ensures Updated(t, rowLevel, cmd, addr, clk) == t
  {
  }

  /** An access counts one more hit for its row, refreshes the timestamp,
      keeps the open row, and leaves every other entry as it was. */
  lemma AccessingCountsHit(t: Table, rowLevel: nat, cmd: Command, addr: AddrVec, clk: int)
    requires cmd.isAccessing && !cmd.isOpening && !cmd.isClosing
    requires UpdateAllowed(t, rowLevel, cmd, addr, clk)
    ensures var t' := Updated(t, rowLevel, cmd, addr, clk);
      && GetHits(t', rowLevel, addr, false) == GetHits(t, rowLevel, addr, false) + 1
      && GetOpenRow(t', rowLevel, addr) == GetOpenRow(t, rowLevel, addr) == RowOf(addr, rowLevel)
      && t'[RowGroup(addr, rowLevel)].timestamp == clk
      && t'.Keys == t.Keys
      && forall k :: k in t && k != RowGroup(addr, rowLevel) ==> t'[k] == t[k]
  {
  }

  /** A close removes exactly the entries that agree with the address on
      the command's scope, keeps the rest untouched, and removes at least
      one entry. */
  lemma ClosingRemovesScope(t: Table, rowLevel: nat, cmd: Command, addr: AddrVec, clk: int)
    requires cmd.isClosing && !cmd.isOpening && !cmd.isAccessing
    requires UpdateAllowed(t, rowLevel, cmd, addr, clk)
    ensures var t' := Updated(t, rowLevel, cmd, addr, clk);
      && t'.Keys == t.Keys - ClosingKeys(t, addr, cmd.scope + 1)
      && (forall k :: k in t' ==> t'[k] == t[k])
      && |t'| < |t|
  {
    var t' := Updated(t, rowLevel, cmd, addr, clk);
    var gone := ClosingKeys(t, addr, cmd.scope + 1);
    assert t'.Keys == t.Keys - gone;
    var k :| k in gone;
    assert t'.Keys < t.Keys by {
      assert k in t.Keys && k !in t'.Keys;
    }
    assert |t'.Keys| < |t.Keys|;
  }

  /** A read or write with auto-precharge closes exactly its own row group,
      after counting its hit. */
  lemma {:induction false} AccessAndCloseRemovesOwnGroup(t: Table, rowLevel: nat, cmd: Command, addr: AddrVec, clk: int)
    requires cmd.isAccessing && cmd.isClosing && !cmd.isOpening
    requires KeysAreRowGroups(t, rowLevel)
    requires UpdateAllowed(t, rowLevel, cmd, addr, clk)
    ensures var t' := Updated(t, rowLevel, cmd, addr, clk);
      && t'.Keys == t.Keys - {RowGroup(addr, rowLevel)}
      && GetOpenRow(t', rowLevel, addr) == -1
      && forall k :: k in t' ==> t'[k] == t[k]
  {
    var g := RowGroup(addr, rowLevel);
    var t2 := AfterAccess(t, rowLevel, cmd, addr, clk);
    forall k | k in t2
      ensures SameLevels(k, addr, rowLevel) <==> k == g
    {
      assert |k| == rowLevel;
      assert k[..rowLevel] == k;
    }
  }

  /** Open, access, then close the row group again: one hit is counted on
      the open row, and after the close the row group reads as closed. */
  lemma OpenAccessCloseRoundTrip(t: Table, rowLevel: nat, addr: AddrVec,
                                 act: Command, rd: Command, pre: Command,
                                 clk0: int, clk1: int, clk2: int)
    requires rowLevel < |addr| && RowGroup(addr, rowLevel) !in t
    requires act.isOpening && !act.isAccessing && !act.isClosing
    requires rd.isAccessing && !rd.isOpening && !rd.isClosing
    requires pre.isClosing && !pre.isOpening && !pre.isAccessing && pre.scope + 1 <= rowLevel
    ensures UpdateAllowed(t, rowLevel, act, addr, clk0)
    ensures var t1 := Updated(t, rowLevel, act, addr, clk0);
      && UpdateAllowed(t1, rowLevel, rd, addr, clk1)
      && var t2 := Updated(t1, rowLevel, rd, addr, clk1);
         && GetHits(t2, rowLevel, addr, false) == 1
         && GetOpenRow(t2, rowLevel, addr) == RowOf(addr, rowLevel)
         && UpdateAllowed(t2, rowLevel, pre, addr, clk2)
         && GetOpenRow(Updated(t2, rowLevel, pre, addr, clk2), rowLevel, addr) == -1
  {
    var g := RowGroup(addr, rowLevel);
    var t1 := Updated(t, rowLevel, act, addr, clk0);
    assert g in t1;
    var t2 := Updated(t1, rowLevel, rd, addr, clk1);
    assert SameLevels(g, addr, pre.scope + 1);
    assert g in ClosingKeys(t2, addr, pre.scope + 1);
  }
}
