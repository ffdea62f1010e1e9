/** Tokenizing and parsing one command or reply line (packet/cmdparse.c). */
module CmdParse {
  import opened CInt
  import opened Text

  const MAX_COMMAND_ARGUMENTS := 16
  const MAX_COMMAND_TOKENS := MAX_COMMAND_ARGUMENTS * 2 + 2

  // ----- words -----

  predicate IsWord(w: string) { w != "" && forall i :: 0 <= i < |w| ==> !IsSpace(w[i]) }

  /** The length of the run of non-space characters at the front. */
  function WordRun(s: string): (n: nat)
    ensures n <= |s|
    ensures forall i :: 0 <= i < n ==> !IsSpace(s[i])
    ensures n < |s| ==> IsSpace(s[n])
  {
    if s == "" || IsSpace(s[0]) then 0 else 1 + WordRun(s[1..])
  }

  /** The whitespace-separated words of a line. */
  function Words(s: string): seq<string>
    decreases |s|
  {
    if s == "" then []
    else if IsSpace(s[0]) then Words(s[1..])
    else [s[..WordRun(s)]] + Words(s[WordRun(s)..])
  }

  /** Words separated by single spaces, as every printer in the program writes them. */
  function Join(ws: seq<string>): string
    requires ws != []
  {
    JoinWith(" ", ws)
  }

  lemma {:induction false} WordRunStops(w: string, rest: string)
    requires forall i :: 0 <= i < |w| ==> !IsSpace(w[i])
    requires rest == "" || IsSpace(rest[0])
    ensures WordRun(w + rest) == |w|
  {
    if w == "" {
      assert w + rest == rest;
    } else {
      assert (w + rest)[1..] == w[1..] + rest;
      WordRunStops(w[1..], rest);
    }
  }

  lemma FirstWord(w: string, rest: string)
    requires IsWord(w) && (rest == "" || IsSpace(rest[0]))
    ensures Words(w + rest) == [w] + Words(rest)
  {
    WordRunStops(w, rest);
    assert (w + rest)[..|w|] == w && (w + rest)[|w|..] == rest;
  }

  /** Splitting at whitespace undoes joining with spaces. */
  lemma {:induction false} WordsOfJoin(ws: seq<string>)
    requires ws != [] && forall w :: w in ws ==> IsWord(w)
    ensures Words(Join(ws)) == ws
  {
    if |ws| == 1 {
      FirstWord(ws[0], "");
      assert ws[0] + "" == ws[0];
    } else {
      var rest := Join(ws[1..]);
      FirstWord(ws[0], " " + rest);
      assert ws[0] + " " + rest == ws[0] + (" " + rest);
      assert (" " + rest)[1..] == rest;
      WordsOfJoin(ws[1..]);
    }
  }

  predicate AllSpace(s: string) { forall i :: 0 <= i < |s| ==> IsSpace(s[i]) }

  /** A line with any whitespace before, between and after its words; `gaps[i]` comes before word i. */
  function Spaced(ws: seq<string>, gaps: seq<string>, end: string): string
    requires |gaps| == |ws|
  {
    if ws == [] then end else gaps[0] + ws[0] + Spaced(ws[1..], gaps[1..], end)
  }

  lemma {:induction false} SpaceIsSkipped(gap: string, rest: string)
    requires AllSpace(gap)
    ensures Words(gap + rest) == Words(rest)
  {
    if gap == "" {
      assert gap + rest == rest;
    } else {
      assert (gap + rest)[1..] == gap[1..] + rest;
      SpaceIsSkipped(gap[1..], rest);
    }
  }

  /** Whatever whitespace separates them, the words come out. */
  lemma {:induction false} WordsOfSpaced(ws: seq<string>, gaps: seq<string>, end: string)
    requires |gaps| == |ws| && AllSpace(end)
    requires forall i :: 0 <= i < |ws| ==> IsWord(ws[i]) && AllSpace(gaps[i]) && (i > 0 ==> gaps[i] != "")
    ensures Words(Spaced(ws, gaps, end)) == ws
  {
    hide Words;
    NoWords();
    if ws == [] {
      SpaceIsSkipped(end, "");
      assert end + "" == end;
    } else {
      var rest := Spaced(ws[1..], gaps[1..], end);
      assert rest == "" || IsSpace(rest[0]) by {
        if |ws| > 1 {
          assert rest[0] == gaps[1][0];
        }
      }
      assert gaps[0] + ws[0] + rest == gaps[0] + (ws[0] + rest);
      SpaceIsSkipped(gaps[0], ws[0] + rest);
      FirstWord(ws[0], rest);
      WordsOfSpaced(ws[1..], gaps[1..], end);
    }
  }

  lemma JoinAppend(ws: seq<string>, more: seq<string>)
    requires ws != [] && more != []
    ensures Join(ws + more) == Join(ws) + " " + Join(more)
  {
    JoinWithAppend(" ", ws, more);
  }

  // ----- in-place tokenizing -----

  /** The C string at a position of a buffer. */
  function CString(b: seq<char>, at: nat): string
    requires at <= |b|
    decreases |b| - at
  {
    if at == |b| || b[at] == NUL then "" else [b[at]] + CString(b, at + 1)
  }

  lemma {:induction false} CStringIs(b: seq<char>, at: nat, w: string)
    requires at + |w| < |b| && b[at..at + |w|] == w && NUL !in w && b[at + |w|] == NUL
    ensures CString(b, at) == w
    decreases |w|
  {
    if w != "" {
      assert w[0] == b[at..at + |w|][0] == b[at];
      assert b[at + 1..at + 1 + |w[1..]|] == w[1..];
      CStringIs(b, at + 1, w[1..]);
      assert w == [w[0]] + w[1..];
    }
  }

  /** A token of the line: a non-empty run of non-space characters. */
  ghost predicate Token(s: string, start: nat, end: nat) {
    start < end <= |s| && forall j :: start <= j < end ==> !IsSpace(s[j])
  }

  /** Tokenizing only ever overwrites whitespace, with NULs. */
  ghost predicate OnlyCut(s: string, b: seq<char>) {
    |s| < |b| && forall j :: 0 <= j < |s| ==> b[j] == s[j] || (b[j] == NUL && IsSpace(s[j]))
  }

  lemma TokenReadsBack(s: string, b: seq<char>, start: nat, end: nat)
    requires OnlyCut(s, b) && Token(s, start, end) && NUL !in s
    requires b[end] == NUL
    ensures CString(b, start) == s[start..end]
  {
    assert forall j :: start <= j < end ==> b[j] == s[j];
    assert b[start..end] == s[start..end];
    CStringIs(b, start, s[start..end]);
  }

  /** The words between the given bounds. */
  function Slices(s: string, starts: seq<nat>, ends: seq<nat>): (ws: seq<string>)
    requires |ends| <= |starts| && forall k :: 0 <= k < |ends| ==> starts[k] <= ends[k] <= |s|
    ensures |ws| == |ends|
  {
    seq(|ends|, k requires 0 <= k < |ends| => s[starts[k]..ends[k]])
  }

  lemma TokensReadBack(s: string, b: seq<char>, starts: seq<nat>, ends: seq<nat>)
    requires OnlyCut(s, b) && NUL !in s && |starts| == |ends|
    requires forall k :: 0 <= k < |ends| ==> starts[k] < ends[k] <= |s|
    requires forall k :: 0 <= k < |ends| ==> Token(s, starts[k], ends[k])
    requires forall k :: 0 <= k < |ends| ==> b[ends[k]] == NUL
    ensures forall k :: 0 <= k < |ends| ==> CString(b, starts[k]) == Slices(s, starts, ends)[k]
  {
    forall k | 0 <= k < |ends|
      ensures CString(b, starts[k]) == Slices(s, starts, ends)[k]
    {
      TokenReadsBack(s, b, starts[k], ends[k]);
    }
  }

  /**
   * Where the scan stands at position `i`: the tokens completed so far, where each started, and
   * whether the last one is still open.
   */
  ghost predicate Progress(s: string, i: nat, onSpace: bool, starts: seq<nat>, ends: seq<nat>) {
    && i <= |s|
    && |starts| == |ends| + (if onSpace then 0 else 1)
    && (forall k :: 0 <= k < |ends| ==> Token(s, starts[k], ends[k]) && ends[k] < i)
    && (if onSpace then Words(s) == Slices(s, starts, ends) + Words(s[i..])
        else Token(s, starts[|ends|], i)
             && Words(s) == Slices(s, starts, ends) + Words(s[starts[|ends|]..]))
  }

  /** The buffer while the scan stands at `i`: untouched from there on, and cut after each token. */
  ghost predicate Cutting(s: string, b: seq<char>, i: nat, ends: seq<nat>) {
    && OnlyCut(s, b) && b[|s|] == NUL
    && (forall j :: i <= j < |s| ==> b[j] == s[j])
    && (forall k :: 0 <= k < |ends| ==> ends[k] < |b| && b[ends[k]] == NUL)
  }

  lemma CutAtEnd(s: string, b: seq<char>, ends: seq<nat>)
    requires Cutting(s, b, |s|, ends)
    ensures Cutting(s, b, |s|, ends + [|s|])
  {}

  lemma CutEverywhere(s: string, b: seq<char>, i: nat, ends: seq<nat>)
    requires Cutting(s, b, i, ends)
    ensures OnlyCut(s, b) && forall k :: 0 <= k < |ends| ==> ends[k] < |b| && b[ends[k]] == NUL
  {}

  lemma Cut(s: string, b: seq<char>, i: nat, ends: seq<nat>)
    requires Cutting(s, b, i, ends) && i < |s| && IsSpace(s[i])
    ensures Cutting(s, b[i := NUL], i + 1, ends + [i])
  {}

  lemma Uncut(s: string, b: seq<char>, i: nat, ends: seq<nat>)
    requires Cutting(s, b, i, ends) && i <= |s| && NUL !in s
    ensures |s| < |b| && (b[i] == NUL <==> i == |s|) && (i < |s| ==> b[i] == s[i])
    ensures i < |s| ==> Cutting(s, b, i + 1, ends)
  {}

  lemma SkipSpace(s: string, i: nat, starts: seq<nat>, ends: seq<nat>)
    requires Progress(s, i, true, starts, ends) && i < |s| && IsSpace(s[i])
    ensures Progress(s, i + 1, true, starts, ends)
  {
    assert s[i..][1..] == s[i + 1..];
  }

  lemma StartHere(s: string, b: seq<char>)
    requires |s| < |b| && b[..|s|] == s && b[|s|] == NUL
    ensures Progress(s, 0, true, [], []) && Cutting(s, b, 0, [])
  {
    assert s[0..] == s;
    assert forall j :: 0 <= j < |s| ==> b[j] == b[..|s|][j];
  }

  lemma StayInToken(s: string, i: nat, starts: seq<nat>, ends: seq<nat>)
    requires Progress(s, i, false, starts, ends) && i < |s| && !IsSpace(s[i])
    ensures Progress(s, i + 1, false, starts, ends)
  {}

  lemma OpenToken(s: string, i: nat, starts: seq<nat>, ends: seq<nat>)
    requires Progress(s, i, true, starts, ends) && i < |s| && !IsSpace(s[i])
    ensures Progress(s, i + 1, false, starts + [i], ends)
    ensures |Words(s)| > |ends|
  {
    assert (starts + [i])[|ends|] == i;
    assert Slices(s, starts + [i], ends) == Slices(s, starts, ends);
    assert |Words(s[i..])| >= 1;
  }

  lemma NoWords()
    ensures Words("") == []
  {}

  lemma WordEndsHere(s: string, start: nat, i: nat)
    requires Token(s, start, i) && (i < |s| ==> IsSpace(s[i]))
    ensures Words(s[start..]) == [s[start..i]] + Words(s[i..])
    ensures i < |s| ==> Words(s[i..]) == Words(s[i + 1..])
  {
    var w := s[start..i];
    assert forall j :: 0 <= j < |w| ==> w[j] == s[start + j];
    FirstWord(w, s[i..]);
    assert s[start..] == w + s[i..];
    if i < |s| {
      assert s[i..][1..] == s[i + 1..];
    }
  }

  /** The state after the token that ends at `i`; the input may end there too. */
  lemma {:induction false} CloseToken(s: string, i: nat, starts: seq<nat>, ends: seq<nat>)
    requires Progress(s, i, false, starts, ends) && (i < |s| ==> IsSpace(s[i]))
    ensures forall k :: 0 <= k < |ends + [i]| ==> starts[k] < (ends + [i])[k] <= |s|
    ensures forall k :: 0 <= k < |ends + [i]| ==> Token(s, starts[k], (ends + [i])[k])
    ensures i == |s| ==> Words(s) == Slices(s, starts, ends + [i])
    ensures i < |s| ==> Progress(s, i + 1, true, starts, ends + [i])
  {
    hide Words, IsSpace;
    NoWords();
    var start := starts[|ends|];
    WordEndsHere(s, start, i);
    assert Slices(s, starts, ends + [i]) == Slices(s, starts, ends) + [s[start..i]];
    assert Slices(s, starts, ends + [i]) + Words(s[i..])
        == Slices(s, starts, ends) + ([s[start..i]] + Words(s[i..]));
    if i == |s| {
      assert s[i..] == "";
    }
  }

  lemma AllRead(s: string, starts: seq<nat>, ends: seq<nat>)
    requires Progress(s, |s|, true, starts, ends)
    ensures forall k :: 0 <= k < |ends| ==> starts[k] < ends[k] <= |s|
    ensures forall k :: 0 <= k < |ends| ==> Token(s, starts[k], ends[k])
    ensures Words(s) == Slices(s, starts, ends)
  {}

  /**
   * Put a NUL after each word of the C string, in place, and return the number of words with the
   * position of each; -1 if there are more than `maxTokens`.
   */
  method TokenizeCommand(tokens: array<nat>, maxTokens: nat, commandString: array<char>, ghost s: string)
      returns (tokenCount: int)
    requires tokens.Length == maxTokens
    requires |s| < commandString.Length && NUL !in s
    requires commandString[..|s|] == s && commandString[|s|] == NUL
    modifies tokens, commandString
    ensures tokenCount < 0 <==> |Words(s)| > maxTokens
    ensures tokenCount >= 0 ==> tokenCount == |Words(s)|
    ensures tokenCount >= 0 ==>
              forall k :: 0 <= k < tokenCount ==>
                tokens[k] <= commandString.Length && CString(commandString[..], tokens[k]) == Words(s)[k]
  {
    hide Words, Slices, Progress, Cutting, IsSpace, CString;
    tokenCount := 0;
    var onSpace := true;
    var i := 0;
    ghost var starts: seq<nat>, ends: seq<nat> := [], [];
    ghost var b := commandString[..];
    StartHere(s, b);
    while commandString[i] != NUL
      invariant 0 <= i <= |s| && |starts| == |ends| + (if onSpace then 0 else 1)
      invariant Progress(s, i, onSpace, starts, ends)
      invariant tokenCount == |starts| <= maxTokens
      invariant forall k :: 0 <= k < tokenCount ==> tokens[k] == starts[k]
      invariant commandString[..] == b && Cutting(s, b, i, ends)
      decreases |s| - i
    {
      Uncut(s, b, i, ends);
      if onSpace {
        if !IsSpace(commandString[i]) {
          OpenToken(s, i, starts, ends);
          if tokenCount >= maxTokens {
            tokenCount := -1;
            return;
          }
          tokens[tokenCount] := i;
          tokenCount := tokenCount + 1;
          onSpace := false;
          starts := starts + [i];
        } else {
          SkipSpace(s, i, starts, ends);
        }
      } else {
        if IsSpace(commandString[i]) {
          CloseToken(s, i, starts, ends);
          Cut(s, b, i, ends);
          commandString[i] := NUL;
          onSpace := true;
          b, ends := b[i := NUL], ends + [i];
        } else {
          StayInToken(s, i, starts, ends);
        }
      }
      i := i + 1;
    }
    Uncut(s, b, i, ends);
    if !onSpace {
      CloseToken(s, i, starts, ends);
      CutAtEnd(s, b, ends);
      ends := ends + [i];
    } else {
      AllRead(s, starts, ends);
    }
    CutEverywhere(s, b, i, ends);
    TokensReadBack(s, b, starts, ends);
  }

  // ----- parsing -----

  datatype Argument = Argument(name: string, value: string)
  datatype Command = Command(token: int, name: string, arguments: seq<Argument>)
  datatype ParseResult = Parsed(command: Command) | Invalid

  function Pairs(ws: seq<string>): seq<Argument>
    requires |ws| % 2 == 0
  {
    if ws == [] then [] else [Argument(ws[0], ws[1])] + Pairs(ws[2..])
  }

  /** What a line means: a token, a command name, then name and value pairs. */
  function ParseLine(s: string): ParseResult {
    var ws := Words(s);
    if |ws| < 2 || |ws| > MAX_COMMAND_TOKENS || |ws| % 2 != 0 || Strtol(ws[0]).range then Invalid
    else Parsed(Command(ToInt32(Strtol(ws[0]).value), ws[1], Pairs(ws[2..])))
  }

  lemma {:induction false} PairsAppend(ws: seq<string>, name: string, value: string)
    requires |ws| % 2 == 0
    ensures Pairs(ws + [name, value]) == Pairs(ws) + [Argument(name, value)]
  {
    if ws != [] {
      assert (ws + [name, value])[2..] == ws[2..] + [name, value];
      PairsAppend(ws[2..], name, value);
    }
  }

  /**
   * Parse the C string in `commandString`, which is modified in place.  The names and values of
   * the result are the C strings the token pointers then refer to.
   */
  method ParseCommand(commandString: array<char>, ghost s: string) returns (result: ParseResult)
    requires |s| < commandString.Length && NUL !in s
    requires commandString[..|s|] == s && commandString[|s|] == NUL
    modifies commandString
    ensures result == ParseLine(s)
  {
    hide Words, Strtol, CString;
    var tokens := new nat[MAX_COMMAND_TOKENS];
    var tokenCount := TokenizeCommand(tokens, MAX_COMMAND_TOKENS, commandString, s);
    if tokenCount < 2 {
      return Invalid;
    }
    ghost var ws, text, starts := Words(s), commandString[..], tokens[..];
    assert forall k :: 0 <= k < |ws| ==> starts[k] <= |text| && CString(text, starts[k]) == ws[k];
    var parsedToken := Strtol(CString(commandString[..], tokens[0]));
    if parsedToken.range {
      return Invalid;
    }
    var name := CString(commandString[..], tokens[1]);
    var i := 2;
    var arguments: seq<Argument> := [];
    while i < tokenCount
      invariant 2 <= i <= tokenCount && i % 2 == 0
      invariant |arguments| == (i - 2) / 2
      invariant arguments == Pairs(ws[2..i])
      invariant commandString[..] == text && tokens[..] == starts
    {
      if i + 1 >= tokenCount {
        return Invalid;
      }
      if |arguments| >= MAX_COMMAND_ARGUMENTS {
        return Invalid;
      }
      assert tokens[i] == starts[i] && tokens[i + 1] == starts[i + 1];
      var argument := Argument(CString(commandString[..], tokens[i]), CString(commandString[..], tokens[i + 1]));
      AppendPair(ws, i);
      arguments := arguments + [argument];
      i := i + 2;
    }
    assert ws[2..i] == ws[2..];
    result := Parsed(Command(ToInt32(parsedToken.value), name, arguments));
  }

  lemma AppendPair(ws: seq<string>, i: nat)
    requires 2 <= i && i + 1 < |ws| && i % 2 == 0
    ensures Pairs(ws[2..i + 2]) == Pairs(ws[2..i]) + [Argument(ws[i], ws[i + 1])]
  {
    PairsAppend(ws[2..i], ws[i], ws[i + 1]);
    assert ws[2..i + 2] == ws[2..i] + [ws[i], ws[i + 1]];
  }
}
