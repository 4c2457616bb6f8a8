/** The compressed parse table: large states are rows of values, small states are groups of
    symbols that share a value. Models ts_language_lookup and the lookahead iterator
    (language.h:73-178). */
module ParseTables {

  const SYMBOL_LIMIT: nat := 0x1_0000

  datatype Group = Group(value: nat, symbols: seq<nat>)

  datatype Table = Table(largeStateCount: nat, symbolCount: nat, tokenCount: nat, parseTable: seq<nat>,
                         smallParseTableMap: seq<nat>, smallParseTable: seq<nat>, actionCount: nat -> nat)

  /** From `at` on the small table encodes these groups. */
  ghost predicate Encodes(data: seq<nat>, at: nat, groups: seq<Group>)
    decreases |groups|
  {
    groups != [] ==>
      var n := |groups[0].symbols|;
      && at + 2 + n <= |data|
      && data[at] == groups[0].value && data[at + 1] == n && data[at + 2..at + 2 + n] == groups[0].symbols
      && Encodes(data, at + 2 + n, groups[1..])
  }

  /** The value of a symbol: that of the first group it is in. */
  function LookupIn(groups: seq<Group>, symbol: nat): nat {
    if groups == [] then 0
    else if symbol in groups[0].symbols then groups[0].value
    else LookupIn(groups[1..], symbol)
  }

  predicate Holds(groups: seq<Group>, symbol: nat) {
    exists i :: 0 <= i < |groups| && symbol in groups[i].symbols
  }

  predicate AllDistinct(symbols: seq<nat>) {
    forall i, j :: 0 <= i < j < |symbols| ==> symbols[i] != symbols[j]
  }

  /** No empty groups, no zero values, and each symbol once. */
  predicate GroupsOk(groups: seq<Group>) {
    groups == [] ||
    (&& groups[0].symbols != [] && groups[0].value != 0 && AllDistinct(groups[0].symbols)
     && (forall k :: 0 <= k < |groups[0].symbols| ==> !Holds(groups[1..], groups[0].symbols[k]))
     && GroupsOk(groups[1..]))
  }

  /** What the table says about one state. */
  datatype StateRow = Large(values: seq<nat>) | Small(groups: seq<Group>)

  ghost predicate IsRow(table: Table, state: nat, row: StateRow) {
    match row
    case Large(values) =>
      && state < table.largeStateCount && |values| == table.symbolCount
      && var start := state * table.symbolCount;
      && start + table.symbolCount <= |table.parseTable|
      && values == table.parseTable[start..start + table.symbolCount]
    case Small(groups) =>
      && table.largeStateCount <= state && state - table.largeStateCount < |table.smallParseTableMap|
      && var index := table.smallParseTableMap[state - table.largeStateCount];
      && index < |table.smallParseTable| && table.smallParseTable[index] == |groups|
      && Encodes(table.smallParseTable, index + 1, groups)
  }

  function ValueIn(row: StateRow, symbol: nat): nat {
    match row
    case Large(values) => if symbol < |values| then values[symbol] else 0
    case Small(groups) => LookupIn(groups, symbol)
  }

  /** The value of a symbol in a state: direct for large states, by search for small ones. */
  method Lookup(table: Table, state: nat, symbol: nat, ghost row: StateRow) returns (value: nat)
    requires IsRow(table, state, row) && symbol < table.symbolCount
    ensures value == ValueIn(row, symbol)
  {
    if state >= table.largeStateCount {
      var index := table.smallParseTableMap[state - table.largeStateCount];
      value := LookupSmall(table.smallParseTable, index, symbol, row.groups);
    } else {
      value := table.parseTable[state * table.symbolCount + symbol];
      assert row.values[symbol] == value;
    }
  }

  method LookupSmall(data: seq<nat>, index: nat, symbol: nat, ghost groups: seq<Group>) returns (value: nat)
    requires index < |data| && data[index] == |groups| && Encodes(data, index + 1, groups)
    ensures value == LookupIn(groups, symbol)
  {
    var groupCount := data[index];
    var at: nat := index + 1;
    ghost var rest := groups;
    var i := 0;
    while i < groupCount
      invariant i <= groupCount && |rest| == groupCount - i && Encodes(data, at, rest)
      invariant LookupIn(groups, symbol) == LookupIn(rest, symbol)
    {
      var sectionValue, symbolCount := data[at], data[at + 1];
      at := at + 2;
      var found := IsInSection(data, at, symbolCount, symbol);
      if found {
        return sectionValue;
      }
      at := at + symbolCount;
      rest := rest[1..];
      i := i + 1;
    }
    return 0;
  }

  /** Is the symbol listed in this section of the table? */
  method IsInSection(data: seq<nat>, start: nat, symbolCount: nat, symbol: nat) returns (found: bool)
    requires start + symbolCount <= |data|
    ensures found <==> symbol in data[start..start + symbolCount]
  {
    var j := 0;
    while j < symbolCount
      invariant j <= symbolCount && symbol !in data[start..start + j]
    {
      if data[start + j] == symbol {
        assert data[start..start + symbolCount][j] == symbol;
        return true;
      }
      j := j + 1;
    }
    return false;
  }

  // ---- Everything a state allows ----

  /** A symbol with its value, and whether the value is a list of actions. */
  datatype Entry = Entry(symbol: nat, value: nat, terminal: bool)

  function GroupEntries(group: Group, tokenCount: nat): (entries: seq<Entry>)
    ensures |entries| == |group.symbols|
    ensures forall k :: 0 <= k < |entries| ==>
              entries[k] == Entry(group.symbols[k], group.value, group.symbols[0] < tokenCount)
  {
    seq(|group.symbols|, k requires 0 <= k < |group.symbols| =>
      Entry(group.symbols[k], group.value, group.symbols[0] < tokenCount))
  }

  function SmallEntries(groups: seq<Group>, tokenCount: nat): seq<Entry> {
    if groups == [] then [] else GroupEntries(groups[0], tokenCount) + SmallEntries(groups[1..], tokenCount)
  }

  function LargeEntries(values: seq<nat>, tokenCount: nat, from: nat): seq<Entry>
    decreases |values| - from
  {
    if from >= |values| then []
    else (if values[from] != 0 then [Entry(from, values[from], from < tokenCount)] else []) +
         LargeEntries(values, tokenCount, from + 1)
  }

  function Entries(row: StateRow, tokenCount: nat): seq<Entry> {
    match row
    case Large(values) => LargeEntries(values, tokenCount, 0)
    case Small(groups) => SmallEntries(groups, tokenCount)
  }

  predicate OncePerSymbol(entries: seq<Entry>) {
    forall i, j :: 0 <= i < j < |entries| ==> entries[i].symbol != entries[j].symbol
  }

  predicate HasEntry(entries: seq<Entry>, symbol: nat, value: nat) {
    exists i :: 0 <= i < |entries| && entries[i].symbol == symbol && entries[i].value == value
  }

  lemma HasEntryAppend(a: seq<Entry>, b: seq<Entry>, symbol: nat, value: nat)
    ensures HasEntry(a + b, symbol, value) <==> HasEntry(a, symbol, value) || HasEntry(b, symbol, value)
  {
    if HasEntry(a, symbol, value) {
      var i :| 0 <= i < |a| && a[i].symbol == symbol && a[i].value == value;
      assert (a + b)[i] == a[i];
    }
    if HasEntry(b, symbol, value) {
      var i :| 0 <= i < |b| && b[i].symbol == symbol && b[i].value == value;
      assert (a + b)[|a| + i] == b[i];
    }
  }

  lemma {:induction false} SmallEntriesAgree(groups: seq<Group>, tokenCount: nat, symbol: nat, value: nat)
    requires GroupsOk(groups)
    ensures HasEntry(SmallEntries(groups, tokenCount), symbol, value) <==>
              value != 0 && LookupIn(groups, symbol) == value
    ensures (exists v :: HasEntry(SmallEntries(groups, tokenCount), symbol, v)) <==> Holds(groups, symbol)
    decreases |groups|
  {
    if groups != [] {
      var first, rest := GroupEntries(groups[0], tokenCount), SmallEntries(groups[1..], tokenCount);
      SmallEntriesAgree(groups[1..], tokenCount, symbol, value);
      HoldsSplits(groups, symbol);
      HasEntryAppend(first, rest, symbol, value);
      forall v
        ensures HasEntry(first + rest, symbol, v) <==> HasEntry(first, symbol, v) || HasEntry(rest, symbol, v)
      {
        HasEntryAppend(first, rest, symbol, v);
      }
      if symbol in groups[0].symbols {
        var k :| 0 <= k < |groups[0].symbols| && groups[0].symbols[k] == symbol;
        assert first[k].symbol == symbol && !Holds(groups[1..], symbol);
        assert HasEntry(first, symbol, groups[0].value);
      }
    }
  }

  lemma HoldsSplits(groups: seq<Group>, symbol: nat)
    requires groups != []
    ensures Holds(groups, symbol) <==> symbol in groups[0].symbols || Holds(groups[1..], symbol)
  {
    if Holds(groups[1..], symbol) {
      var i :| 0 <= i < |groups[1..]| && symbol in groups[1..][i].symbols;
      assert symbol in groups[i + 1].symbols;
    }
    if Holds(groups, symbol) && symbol !in groups[0].symbols {
      var i :| 0 <= i < |groups| && symbol in groups[i].symbols;
      assert symbol in groups[1..][i - 1].symbols;
    }
  }

  lemma {:induction false} SmallEntriesOnce(groups: seq<Group>, tokenCount: nat)
    requires GroupsOk(groups)
    ensures OncePerSymbol(SmallEntries(groups, tokenCount))
    decreases |groups|
  {
    if groups != [] {
      SmallEntriesOnce(groups[1..], tokenCount);
      var first, rest := GroupEntries(groups[0], tokenCount), SmallEntries(groups[1..], tokenCount);
      forall i, j | 0 <= i < |first| && 0 <= j < |rest|
        ensures first[i].symbol != rest[j].symbol
      {
        SmallEntriesAgree(groups[1..], tokenCount, rest[j].symbol, rest[j].value);
        assert HasEntry(rest, rest[j].symbol, rest[j].value);
        assert !Holds(groups[1..], groups[0].symbols[i]);
      }
    }
  }

  lemma {:induction false} LargeEntriesAgree(values: seq<nat>, tokenCount: nat, from: nat, symbol: nat, value: nat)
    ensures HasEntry(LargeEntries(values, tokenCount, from), symbol, value) <==>
              value != 0 && from <= symbol < |values| && values[symbol] == value
    decreases |values| - from
  {
    if from < |values| {
      LargeEntriesAgree(values, tokenCount, from + 1, symbol, value);
      var first := if values[from] != 0 then [Entry(from, values[from], from < tokenCount)] else [];
      HasEntryAppend(first, LargeEntries(values, tokenCount, from + 1), symbol, value);
      if values[from] != 0 {
        assert first[0].symbol == from;
      }
    }
  }

  lemma {:induction false} LargeEntriesOnce(values: seq<nat>, tokenCount: nat, from: nat)
    ensures OncePerSymbol(LargeEntries(values, tokenCount, from))
    ensures forall i :: 0 <= i < |LargeEntries(values, tokenCount, from)| ==>
              LargeEntries(values, tokenCount, from)[i].symbol >= from
    decreases |values| - from
  {
    if from < |values| {
      LargeEntriesOnce(values, tokenCount, from + 1);
    }
  }

  /** The entries of a state are the pairs of a symbol and its looked-up value, if that is not
      zero, each exactly once. */
  lemma EntriesAgreeWithLookup(row: StateRow, tokenCount: nat)
    requires row.Small? ==> GroupsOk(row.groups)
    ensures OncePerSymbol(Entries(row, tokenCount))
    ensures forall symbol, value :: HasEntry(Entries(row, tokenCount), symbol, value) <==>
              value != 0 && ValueIn(row, symbol) == value
  {
    forall symbol, value
      ensures HasEntry(Entries(row, tokenCount), symbol, value) <==> value != 0 && ValueIn(row, symbol) == value
    {
      match row
      case Large(values) => LargeEntriesAgree(values, tokenCount, 0, symbol, value);
      case Small(groups) => SmallEntriesAgree(groups, tokenCount, symbol, value);
    }
    match row
    case Large(values) => LargeEntriesOnce(values, tokenCount, 0);
    case Small(groups) => SmallEntriesOnce(groups, tokenCount);
  }

  // ---- The iterator ----

  /** The entries that a section of the table stands for. */
  function SectionEntries(symbols: seq<nat>, value: nat, terminal: bool): (entries: seq<Entry>)
    ensures |entries| == |symbols|
    ensures forall k :: 0 <= k < |entries| ==> entries[k] == Entry(symbols[k], value, terminal)
  {
    seq(|symbols|, k requires 0 <= k < |symbols| => Entry(symbols[k], value, terminal))
  }

  lemma SectionIsGroup(group: Group, tokenCount: nat)
    requires group.symbols != []
    ensures GroupEntries(group, tokenCount) == SectionEntries(group.symbols, group.value, group.symbols[0] < tokenCount)
  {
  }

  lemma SectionSplits(symbols: seq<nat>, value: nat, terminal: bool, rest: seq<Entry>)
    requires symbols != []
    ensures SectionEntries(symbols, value, terminal) + rest ==
            [Entry(symbols[0], value, terminal)] + (SectionEntries(symbols[1..], value, terminal) + rest)
  {
    assert SectionEntries(symbols, value, terminal) ==
      [Entry(symbols[0], value, terminal)] + SectionEntries(symbols[1..], value, terminal);
  }

  /** The groups that `data` lists from `at` on, and what they stand for: the first symbol of the first
      group, its other symbols, and the other groups behind it. */
  lemma FirstGroup(data: seq<nat>, at: nat, groups: seq<Group>, tokenCount: nat, n: nat)
    requires Encodes(data, at, groups) && groups != [] && n == |groups[0].symbols| > 0
    ensures at + 2 + n <= |data| && data[at] == groups[0].value && data[at + 1] == n
    ensures Encodes(data, at + 2 + n, groups[1..])
    ensures var first, terminal := data[at + 2], data[at + 2] < tokenCount;
            SmallEntries(groups, tokenCount) ==
              [Entry(first, data[at], terminal)] +
              (SectionEntries(data[at + 3..at + 2 + n], data[at], terminal) + SmallEntries(groups[1..], tokenCount))
  {
    var symbols := data[at + 2..at + 2 + n];
    SectionIsGroup(groups[0], tokenCount);
    SectionSplits(symbols, data[at], symbols[0] < tokenCount, SmallEntries(groups[1..], tokenCount));
    assert symbols[1..] == data[at + 3..at + 2 + n];
  }

  class LookaheadIterator {
    const table: Table
    const state: nat
    const isSmallState: bool
    /** Where the row of a large state begins. */
    const rowStart: nat
    var data: int
    var groupEnd: int
    var groupCount: nat
    var symbol: nat
    var tableValue: nat
    var nextState: nat
    var actionCount: nat
    ghost const row: StateRow
    /** What is still to come, and in a small state the groups not yet reached. */
    ghost var ahead: seq<Entry>
    ghost var rest: seq<Group>
    ghost var terminal: bool

    /** A list of actions for a terminal, a successor state for anything else. */
    ghost predicate Decoded()
      reads this
    {
      if terminal then actionCount == table.actionCount(tableValue) && nextState == 0
      else actionCount == 0 && nextState == tableValue
    }

    ghost predicate SmallOk()
      reads this
    {
      && row.Small? && GroupsOk(rest) && |rest| == groupCount
      && -1 <= data < groupEnd <= |table.smallParseTable|
      && Encodes(table.smallParseTable, groupEnd, rest)
      && (data + 1 < groupEnd ==> Decoded())
      && ahead == SectionEntries(table.smallParseTable[data + 1..groupEnd], tableValue, terminal)
                  + SmallEntries(rest, table.tokenCount)
    }

    ghost predicate LargeOk()
      reads this
    {
      && row.Large?
      && var from := (symbol + 1) % SYMBOL_LIMIT;
      && from <= table.symbolCount < SYMBOL_LIMIT
      && rowStart + table.symbolCount <= |table.parseTable|
      && row.values == table.parseTable[rowStart..rowStart + table.symbolCount]
      && data == rowStart + from - 1
      && ahead == LargeEntries(row.values, table.tokenCount, from)
    }

    ghost predicate Valid()
      reads this
    {
      if isSmallState then SmallOk() else LargeOk()
    }

    /** An iterator over everything one state allows (ts_language_lookaheads). */
    constructor (table: Table, state: nat, ghost row: StateRow)
      requires IsRow(table, state, row) && (row.Small? ==> GroupsOk(row.groups)) && table.symbolCount < SYMBOL_LIMIT
      ensures Valid() && this.row == row && this.table == table && ahead == Entries(row, table.tokenCount)
    {
      var small := state >= table.largeStateCount;
      this.table, this.state, this.isSmallState, this.row := table, state, small, row;
      symbol, tableValue, nextState, actionCount := SYMBOL_LIMIT - 1, 0, 0, 0;
      var start := state * table.symbolCount;
      rowStart := start;
      if small {
        var index := table.smallParseTableMap[state - table.largeStateCount];
        data, groupEnd, groupCount := index, index + 1, table.smallParseTable[index];
      } else {
        data, groupEnd, groupCount := start - 1, 0, 0;
      }
      ahead := Entries(row, table.tokenCount);
      rest := if row.Small? then row.groups else [];
      terminal := false;
      new;
      if isSmallState {
        assert table.smallParseTable[data + 1..groupEnd] == [];
        assert [] + ahead == ahead;
      } else {
        assert (symbol + 1) % SYMBOL_LIMIT == 0;
      }
    }

    /** Yields the next entry, or nothing if there is none. */
    method Next() returns (found: bool)
      requires Valid()
      modifies this
      ensures found <==> old(ahead) != []
      ensures found ==> Valid() && [Entry(symbol, tableValue, terminal)] + ahead == old(ahead)
      ensures found ==> Decoded()
    {
      if isSmallState {
        found := NextInGroups();
      } else {
        found := NextInRow();
        if found {
          Decode();
        }
      }
    }

    /** The next symbol of the group, or the first of the next one, which is decoded once. */
    method NextInGroups() returns (found: bool)
      requires isSmallState && SmallOk()
      modifies this
      ensures found <==> old(ahead) != []
      ensures found ==> SmallOk() && [Entry(symbol, tableValue, terminal)] + ahead == old(ahead) && Decoded()
    {
      data := data + 1;
      if data == groupEnd {
        if groupCount == 0 {
          assert SmallEntries(rest, table.tokenCount) == [];
          return false;
        }
        FirstGroup(table.smallParseTable, data, rest, table.tokenCount, |rest[0].symbols|);
        EnterGroup();
        Decode();
      } else {
        NextInGroup();
      }
      return true;
    }

    /** What the value of the current symbol stands for. */
    method Decode()
      requires terminal == (symbol < table.tokenCount)
      modifies this`actionCount, this`nextState
      ensures Decoded()
    {
      if symbol < table.tokenCount {
        actionCount := table.actionCount(tableValue);
        nextState := 0;
      } else {
        actionCount := 0;
        nextState := tableValue;
      }
    }

    /** Yields another symbol of the same group. */
    method NextInGroup()
      requires row.Small? && 0 <= data < groupEnd <= |table.smallParseTable|
      requires ahead == SectionEntries(table.smallParseTable[data..groupEnd], tableValue, terminal)
                        + SmallEntries(rest, table.tokenCount)
      modifies this`symbol, this`ahead
      ensures [Entry(symbol, tableValue, terminal)] + ahead == old(ahead)
      ensures ahead == SectionEntries(table.smallParseTable[data + 1..groupEnd], tableValue, terminal)
                       + SmallEntries(rest, table.tokenCount)
    {
      ghost var section := table.smallParseTable[data..groupEnd];
      SectionSplits(section, tableValue, terminal, SmallEntries(rest, table.tokenCount));
      assert section[1..] == table.smallParseTable[data + 1..groupEnd];
      symbol := table.smallParseTable[data];
      ahead := ahead[1..];
    }

    /** Reads the header of the next group and yields its first symbol. */
    method EnterGroup()
      requires row.Small? && isSmallState && groupCount > 0
      requires |rest| == groupCount && rest[0].symbols != [] && 0 <= data == groupEnd <= |table.smallParseTable|
      requires Encodes(table.smallParseTable, groupEnd, rest) && ahead == SmallEntries(rest, table.tokenCount)
      modifies this`data, this`groupEnd, this`groupCount, this`symbol, this`tableValue, this`ahead, this`rest,
          this`terminal
      ensures rest == old(rest)[1..] && |rest| == groupCount && data == old(data) + 2
      ensures data < groupEnd == data + |old(rest)[0].symbols| <= |table.smallParseTable|
      ensures ahead == SectionEntries(table.smallParseTable[data + 1..groupEnd], tableValue, terminal)
                       + SmallEntries(rest, table.tokenCount)
      ensures [Entry(symbol, tableValue, terminal)] + ahead == old(ahead)
      ensures terminal == (symbol < table.tokenCount)
    {
      var cells, at := table.smallParseTable, data;
      FirstGroup(cells, at, rest, table.tokenCount, |rest[0].symbols|);
      groupCount := groupCount - 1;
      tableValue := cells[at];
      data, groupEnd := at + 2, at + 2 + cells[at + 1];
      symbol := cells[at + 2];
      terminal := symbol < table.tokenCount;
      rest := rest[1..];
      ahead := SectionEntries(cells[at + 3..groupEnd], tableValue, terminal) + SmallEntries(rest, table.tokenCount);
    }

    /** The next symbol of a row whose value is not zero. */
    method NextInRow() returns (found: bool)
      requires Valid() && !isSmallState
      modifies this`data, this`symbol, this`tableValue, this`ahead, this`terminal
      ensures found <==> old(ahead) != []
      ensures found ==> Valid() && [Entry(symbol, tableValue, terminal)] + ahead == old(ahead)
      ensures found ==> terminal == (symbol < table.tokenCount)
    {
      ghost var values := row.values;
      while true
        invariant Valid() && ahead == old(ahead)
        decreases table.symbolCount - (symbol + 1) % SYMBOL_LIMIT
      {
        data := data + 1;
        symbol := (symbol + 1) % SYMBOL_LIMIT;
        if symbol >= table.symbolCount {
          return false;
        }
        tableValue := table.parseTable[data];
        assert tableValue == values[symbol];
        if tableValue != 0 {
          terminal := symbol < table.tokenCount;
          ahead := ahead[1..];
          return true;
        }
      }
    }
  }
}
