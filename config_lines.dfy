/** The line tokenizer of the configuration-file reader and the action each
    line asks for. Positions equal to `|line|` play the role of
    `std::string::npos` (no position found); for the way the reader uses
    them this is exact, since `substr` clamps its length to the line. */
module ConfigLines {

  /** The delimiter set `" \t="`. */
  predicate IsDelim(c: char) {
    c == ' ' || c == '\t' || c == '='
  }

  /** `line.find_first_not_of(" \t=", from)`. */
  function FindFirstNotOf(line: string, from: nat): (pos: nat)
    ensures pos <= |line|
    ensures from <= |line| ==> from <= pos
    ensures pos < |line| ==> !IsDelim(line[pos])
    ensures forall i :: from <= i < pos ==> IsDelim(line[i])
    decreases |line| - from
  {
    if from >= |line| then |line|
    else if !IsDelim(line[from]) then from
    else FindFirstNotOf(line, from + 1)
  }

  /** `line.find_first_of(" \t=", from)`. */
  function FindFirstOf(line: string, from: nat): (pos: nat)
    ensures pos <= |line|
    ensures from <= |line| ==> from <= pos
    ensures pos < |line| ==> IsDelim(line[pos])
    ensures forall i :: from <= i < pos ==> !IsDelim(line[i])
    decreases |line| - from
  {
    if from >= |line| then |line|
    else if IsDelim(line[from]) then from
    else FindFirstOf(line, from + 1)
  }

  function Min(a: int, b: int): int {
    if a <= b then a else b
  }

  /** `s.substr(pos, len)`: at most `len` characters from `pos`. */
  function Substr(s: string, pos: nat, len: nat): (r: string)
    requires pos <= |s|
    ensures |r| == Min(len, |s| - pos) && r <= s[pos..]
  {
    s[pos..pos + Min(len, |s| - pos)]
  }

  /** The tokens the reader's loop collects from position `from` on: each
      starts at the next non-delimiter `start`, and is
      `line.substr(start, end)` where `end` is the absolute index of the
      next delimiter, used as a length. */
  function TokensFrom(line: string, from: nat): (tokens: seq<string>)
    requires from <= |line|
    ensures forall k :: 0 <= k < |tokens| ==> |tokens[k]| > 0 && !IsDelim(tokens[k][0])
    decreases |line| - from
  {
    var start := FindFirstNotOf(line, from);
    if start == |line| then []
    else
      var end := FindFirstOf(line, start);
      [Substr(line, start, end)] + TokensFrom(line, end)
  }

  function Tokens(line: string): seq<string> {
    TokensFrom(line, 0)
  }

  /** The positions at which the tokens of `TokensFrom(line, from)` start. */
  ghost function StartsFrom(line: string, from: nat): seq<nat>
    requires from <= |line|
    decreases |line| - from
  {
    var start := FindFirstNotOf(line, from);
    if start == |line| then []
    else [start] + StartsFrom(line, FindFirstOf(line, start))
  }

  /** `i` is the first character of a maximal run of non-delimiters. */
  ghost predicate RunStart(line: string, i: int) {
    0 <= i < |line| && !IsDelim(line[i]) && (i == 0 || IsDelim(line[i - 1]))
  }

  /** `from` does not fall strictly inside a run of non-delimiters. */
  ghost predicate AtRunBoundary(line: string, from: nat) {
    from == 0 || from >= |line| || IsDelim(line[from - 1]) || IsDelim(line[from])
  }

  /** The tokens and their start positions line up one to one, the starts
      increase, and each token is the `substr` of its start. */
  lemma {:induction false} StartsLineUp(line: string, from: nat)
    requires from <= |line|
    ensures var starts := StartsFrom(line, from); var tokens := TokensFrom(line, from);
      && |starts| == |tokens|
      && (forall k :: 0 <= k < |starts| ==> from <= starts[k] < |line|)
      && (forall k :: 0 <= k < |tokens| ==>
            tokens[k] == Substr(line, starts[k], FindFirstOf(line, starts[k])))
      && (forall a, b :: 0 <= a < b < |starts| ==> starts[a] < starts[b])
    decreases |line| - from
  {
    var start := FindFirstNotOf(line, from);
    if start < |line| {
      var end := FindFirstOf(line, start);
      StartsLineUp(line, end);
      assert StartsFrom(line, from) == [start] + StartsFrom(line, end);
      assert TokensFrom(line, from) == [Substr(line, start, end)] + TokensFrom(line, end);
    }
  }

  /** From a run boundary on, the token starts are exactly the run starts. */
  lemma {:induction false} StartsAreRunStarts(line: string, from: nat)
    requires from <= |line| && AtRunBoundary(line, from)
    ensures forall i :: from <= i && RunStart(line, i) <==> i in StartsFrom(line, from)
    decreases |line| - from
  {
    var start := FindFirstNotOf(line, from);
    if start < |line| {
      var end := FindFirstOf(line, start);
      StartsAreRunStarts(line, end);
      StartsLineUp(line, end);
      var starts := StartsFrom(line, from);
      assert starts == [start] + StartsFrom(line, end);
      assert RunStart(line, start);
      forall i | from <= i && RunStart(line, i)
        ensures i in starts
      {
        assert i == start || end <= i;
      }
    }
  }

  /** One token per maximal run of non-delimiters, in order: the token of
      the run starting at `s` is `line.substr(s, e)` with `e` the absolute
      index where the run ends, so it begins with the whole run (and may
      reach past it when `s > 0`). */
  lemma TokensMatchRuns(line: string)
    ensures var starts := StartsFrom(line, 0); var tokens := Tokens(line);
      && |starts| == |tokens|
      && (forall k :: 0 <= k < |starts| ==> starts[k] < |line|)
      && (forall k :: 0 <= k < |tokens| ==>
            && tokens[k] == Substr(line, starts[k], FindFirstOf(line, starts[k]))
            && line[starts[k]..FindFirstOf(line, starts[k])] <= tokens[k])
      && (forall a, b :: 0 <= a < b < |starts| ==> starts[a] < starts[b])
      && (forall i :: RunStart(line, i) <==> i in starts)
  {
    StartsLineUp(line, 0);
    StartsAreRunStarts(line, 0);
  }

  /** Leading blanks widen the first token past its run: `"  a = 1"` reads
      as the tokens `"a ="` and `"1"`. */
  lemma LeadingBlanksWidenToken()
    ensures Tokens("  a = 1") == ["a =", "1"]
  {
    var line := "  a = 1";
    assert FindFirstNotOf(line, 0) == 2;
    assert FindFirstOf(line, 2) == 3;
    assert Substr(line, 2, 3) == "a =";
    assert FindFirstNotOf(line, 3) == 6;
    assert FindFirstOf(line, 6) == 7;
    assert Substr(line, 6, 7) == "1";
    assert TokensFrom(line, 7) == [];
    assert TokensFrom(line, 3) == ["1"];
    assert TokensFrom(line, 0) == ["a ="] + TokensFrom(line, 3);
  }

  /** The tokenizing loop of `Config::parse`. */
  method Tokenize(line: string) returns (tokens: seq<string>)
    ensures tokens == Tokens(line)
  {
    tokens := [];
    ghost var from: nat := 0;
    var start := FindFirstNotOf(line, 0);
    while start != |line|
      invariant from <= |line| && start == FindFirstNotOf(line, from)
      invariant tokens + TokensFrom(line, from) == Tokens(line)
      decreases |line| - start
    {
      var end := FindFirstOf(line, start);
      tokens := tokens + [Substr(line, start, end)];
      from := end;
      start := FindFirstNotOf(line, end);
    }
  }

  /** What a line asks the reader to do. */
  datatype LineAction = Skip | Setting(name: string, value: string) | Malformed

  /** Blank and comment lines are skipped, a line of exactly two tokens
      sets an option, any other line is fatal. */
  function ActionOf(tokens: seq<string>): (a: LineAction)
    ensures a.Setting? <==> |tokens| == 2 && !(|tokens[0]| > 0 && tokens[0][0] == '#')
    ensures a.Setting? ==> a.name == tokens[0] && a.value == tokens[1]
    ensures a.Skip? <==> |tokens| == 0 || (|tokens[0]| > 0 && tokens[0][0] == '#')
  {
    if |tokens| == 0 || (|tokens[0]| > 0 && tokens[0][0] == '#') then Skip
    else if |tokens| != 2 then Malformed
    else Setting(tokens[0], tokens[1])
  }

  function LineActionOf(line: string): LineAction {
    ActionOf(Tokens(line))
  }
}
