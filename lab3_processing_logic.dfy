/** The pure parsing parts of the Huffman driver logic (lab3/processing_logic.py): the
    command-line argument defaults and the section parser of the input file, over the file's
    lines. Opening and reading the file is not part of this model. */
module ProcessingLogic {
  import opened Common

  // ---------------------------------------------------------------------------------------
  // Command-line arguments

  /** The four file paths `parse_command_line_args` returns. */
  datatype Paths = Paths(input: string, tree: string, encode: string, decode: string)

  /** The paths of the three output files used when the command line leaves them out. */
  const DefaultOutputs: seq<string> := ["tree_info.txt", "encode_results.txt", "decode_results.txt"]

  function PathList(p: Paths): seq<string> {
    [p.input, p.tree, p.encode, p.decode]
  }

  /** `parse_command_line_args(args)`: `args[0]` is the program name; ValueError unless 2 to 5
      arguments; missing output paths take their defaults. */
  function ParseCommandLineArgs(args: seq<string>): (r: Result<Paths, string>)
    ensures r.Err? <==> |args| < 2 || |args| > 5
    ensures r.Err? ==> r.error == "Invalid number of arguments."
  {
    var n := |args|;
    if n < 2 || n > 5 then Err("Invalid number of arguments.")
    else
      Ok(Paths(args[1],
               if n >= 3 then args[2] else "tree_info.txt",
               if n >= 4 then args[3] else "encode_results.txt",
               if n == 5 then args[4] else "decode_results.txt"))
  }

  /** The paths are the arguments after the program name, followed by as many defaults as are
      needed to make four: given paths keep their positions, the missing ones are filled in. */
  lemma ArgsThenDefaults(args: seq<string>)
    requires 2 <= |args| <= 5
    ensures PathList(ParseCommandLineArgs(args).value) == args[1..] + DefaultOutputs[|args| - 2..]
  {
    var p := ParseCommandLineArgs(args).value;
    var expected := args[1..] + DefaultOutputs[|args| - 2..];
    assert |expected| == 4;
    assert PathList(p)[0] == expected[0];
    assert PathList(p)[1] == expected[1];
    assert PathList(p)[2] == expected[2];
    assert PathList(p)[3] == expected[3];
  }

  // ---------------------------------------------------------------------------------------
  // str.strip and str.split

  /** s without its leading whitespace. */
  function StripStart(s: string): (r: string)
    ensures |r| <= |s| && r == s[|s| - |r|..]
    ensures r == [] || !IsSpace(r[0])
    ensures forall i :: 0 <= i < |s| - |r| ==> IsSpace(s[i])
  {
    if s != [] && IsSpace(s[0]) then StripStart(s[1..]) else s
  }

  /** s without its trailing whitespace. */
  function StripEnd(s: string): (r: string)
    ensures |r| <= |s| && r == s[..|r|]
    ensures r == [] || !IsSpace(r[|r| - 1])
    ensures forall i :: |r| <= i < |s| ==> IsSpace(s[i])
  {
    if s != [] && IsSpace(s[|s| - 1]) then StripEnd(s[..|s| - 1]) else s
  }

  /** `str.strip()`: s without its leading and its trailing whitespace. */
  function Strip(s: string): (r: string)
    ensures r == [] || (!IsSpace(r[0]) && !IsSpace(r[|r| - 1]))
  {
    var t := StripStart(s);
    var r := StripEnd(t);
    assert r != [] ==> r[0] == t[0];
    r
  }

  /** r is the block of s starting at i, and everything of s around it is whitespace. */
  predicate SpaceAround(s: string, i: nat, r: string) {
    && i + |r| <= |s|
    && (forall j :: 0 <= j < |r| ==> r[j] == s[i + j])
    && (forall j :: 0 <= j < i ==> IsSpace(s[j]))
    && (forall j :: i + |r| <= j < |s| ==> IsSpace(s[j]))
  }

  /** Only whitespace is removed, from either end: the strip of s is the block of s that
      starts after its leading whitespace, and all that follows it is whitespace. */
  lemma StripIsInnerBlock(s: string)
    ensures SpaceAround(s, |s| - |StripStart(s)|, Strip(s))
  {
    var t, r := StripStart(s), Strip(s);
    StripPieces(s, t, r);
    InnerBlock(s, t, r);
  }

  /** The facts about the two halves of `str.strip()` that make up StripIsInnerBlock. */
  lemma StripPieces(s: string, t: string, r: string)
    requires t == StripStart(s) && r == Strip(s)
    ensures |t| <= |s| && t == s[|s| - |t|..] && |r| <= |t| && r == t[..|r|]
    ensures forall j :: 0 <= j < |s| - |t| ==> IsSpace(s[j])
    ensures forall j :: |r| <= j < |t| ==> IsSpace(t[j])
  {
    assert r == StripEnd(t);
  }

  /** A prefix r of a suffix t of s, with whitespace before t and after r inside t, is a block
      of s with whitespace on both sides. */
  lemma InnerBlock(s: string, t: string, r: string)
    requires |t| <= |s| && t == s[|s| - |t|..] && |r| <= |t| && r == t[..|r|]
    requires forall j :: 0 <= j < |s| - |t| ==> IsSpace(s[j])
    requires forall j :: |r| <= j < |t| ==> IsSpace(t[j])
    ensures SpaceAround(s, |s| - |t|, r)
  {
    var i := |s| - |t|;
    forall j | i + |r| <= j < |s|
      ensures IsSpace(s[j])
    {
      assert s[j] == t[j - i];
    }
  }

  /** A string that neither starts nor ends with whitespace is its own strip. */
  lemma StripTrimmed(s: string)
    requires s == [] || (!IsSpace(s[0]) && !IsSpace(s[|s| - 1]))
    ensures Strip(s) == s
  {
  }

  /** Stripping twice strips no more than stripping once. */
  lemma StripIdempotent(s: string)
    ensures Strip(Strip(s)) == Strip(s)
  {
    StripTrimmed(Strip(s));
  }

  predicate NoSpace(w: string) {
    forall i :: 0 <= i < |w| ==> !IsSpace(w[i])
  }

  /** The length of the run of non-whitespace characters s starts with. */
  function WordLength(s: string): (n: nat)
    ensures n <= |s|
    ensures NoSpace(s[..n])
    ensures n < |s| ==> IsSpace(s[n])
  {
    if s == [] || IsSpace(s[0]) then 0
    else
      var n := 1 + WordLength(s[1..]);
      assert forall i :: 1 <= i < n ==> s[..n][i] == s[1..][..n - 1][i - 1];
      n
  }

  /** `str.split()` with no separator: the maximal runs of non-whitespace characters. */
  function Words(s: string): (ws: seq<string>)
    ensures forall i :: 0 <= i < |ws| ==> ws[i] != [] && NoSpace(ws[i])
    decreases |s|
  {
    if s == [] then []
    else if IsSpace(s[0]) then Words(s[1..])
    else
      var n := WordLength(s);
      [s[..n]] + Words(s[n..])
  }

  /** The non-whitespace characters of s, in order. */
  function NonSpace(s: string): string {
    if s == [] then "" else (if IsSpace(s[0]) then "" else [s[0]]) + NonSpace(s[1..])
  }

  function Concat(ws: seq<string>): string {
    if ws == [] then "" else ws[0] + Concat(ws[1..])
  }

  /** Splitting loses exactly the whitespace: the words put back together are the
      non-whitespace characters of s. */
  lemma {:induction false} WordsCoverText(s: string)
    ensures Concat(Words(s)) == NonSpace(s)
    decreases |s|
  {
    if s != [] {
      if IsSpace(s[0]) {
        WordsCoverText(s[1..]);
      } else {
        var n := WordLength(s);
        WordsCoverText(s[n..]);
        NonSpacePrefix(s, n);
      }
    }
  }

  lemma {:induction false} NonSpacePrefix(s: string, n: nat)
    requires n <= |s| && NoSpace(s[..n])
    ensures NonSpace(s) == s[..n] + NonSpace(s[n..])
  {
    if n > 0 {
      assert !IsSpace(s[..n][0]);
      assert s[1..][..n - 1] == s[..n][1..];
      NonSpacePrefix(s[1..], n - 1);
      assert s[1..][n - 1..] == s[n..];
      assert s[..n] == [s[0]] + s[1..][..n - 1];
    }
  }

  /** `str.isdigit()`: non-empty and all digits. */
  predicate IsDigits(s: string) {
    s != [] && forall i :: 0 <= i < |s| ==> IsDigit(s[i])
  }

  // ---------------------------------------------------------------------------------------
  // parse_input_file

  /** `current_section`: None before the first header. */
  datatype Section = NoSection | FreqSection | EncodeSection | DecodeSection

  /** The parser's state: the section it is in and the three results collected so far. */
  datatype Parsed = Parsed(section: Section, frequencies: map<string, int>,
                           phrases: seq<string>, codes: seq<string>)

  const Start: Parsed := Parsed(NoSection, map[], [], [])

  /** The section a header line switches to, matched after stripping and upper-casing. */
  function Header(line: string): Option<Section> {
    var u := UpperStr(line);
    if u == "FREQUENCY TABLE" then Some(FreqSection)
    else if u == "ENCODE" then Some(EncodeSection)
    else if u == "DECODE" then Some(DecodeSection)
    else None
  }

  /** One iteration of the loop over the file's lines. */
  function Step(st: Parsed, raw: string): Parsed {
    var line := Strip(raw);
    if line == "" then st
    else if Header(line).Some? then st.(section := Header(line).value)
    else match st.section
      case FreqSection =>
        var parts := Words(line);
        if |parts| == 2 && IsDigits(parts[1])
        then st.(frequencies := st.frequencies[UpperStr(parts[0]) := DigitsValue(parts[1])])
        else st
      case EncodeSection => st.(phrases := st.phrases + [line])
      case DecodeSection => st.(codes := st.codes + [line])
      case NoSection => st
  }

  /** The state after the lines, starting from st. */
  function Run(st: Parsed, lines: seq<string>): Parsed
    decreases |lines|
  {
    if lines == [] then st else Step(Run(st, lines[..|lines| - 1]), lines[|lines| - 1])
  }

  /** `parse_input_file` over the lines of the file: frequencies, phrases and codes. */
  method ParseInputFile(lines: seq<string>) returns (frequencies: map<string, int>,
                                                   phrasesToEncode: seq<string>,
                                                   codesToDecode: seq<string>)
    ensures var p := Run(Start, lines);
      frequencies == p.frequencies && phrasesToEncode == p.phrases && codesToDecode == p.codes
  {
    frequencies, phrasesToEncode, codesToDecode := map[], [], [];
    var currentSection := NoSection;
    var i := 0;
    while i < |lines|
      invariant 0 <= i <= |lines|
      invariant Parsed(currentSection, frequencies, phrasesToEncode, codesToDecode) == Run(Start, lines[..i])
    {
      assert lines[..i + 1][..i] == lines[..i];
      var line := Strip(lines[i]);
      i := i + 1;
      if line == "" {
        continue;
      }
      var upper := UpperStr(line);
      if upper == "FREQUENCY TABLE" {
        currentSection := FreqSection;
      } else if upper == "ENCODE" {
        currentSection := EncodeSection;
      } else if upper == "DECODE" {
        currentSection := DecodeSection;
      } else if currentSection == FreqSection {
        var parts := Words(line);
        if |parts| == 2 && IsDigits(parts[1]) {
          frequencies := frequencies[UpperStr(parts[0]) := DigitsValue(parts[1])];
        }
      } else if currentSection == EncodeSection {
        phrasesToEncode := phrasesToEncode + [line];
      } else if currentSection == DecodeSection {
        codesToDecode := codesToDecode + [line];
      }
    }
    assert lines[..|lines|] == lines;
  }

  /** Running over a + b is running over a, then over b. */
  lemma {:induction false} RunAppend(st: Parsed, a: seq<string>, b: seq<string>)
    ensures Run(st, a + b) == Run(Run(st, a), b)
    decreases |b|
  {
    if b == [] {
      assert a + b == a;
    } else {
      var b' := b[..|b| - 1];
      assert (a + b)[..|a + b| - 1] == a + b';
      RunAppend(st, a, b');
    }
  }

  /** A line that is not a header, once stripped. */
  predicate NotHeader(raw: string) {
    Header(Strip(raw)).None?
  }

  /** Before the first header the parser is in no section and keeps nothing. */
  lemma {:induction false} PreambleIgnored(pre: seq<string>)
    requires forall i :: 0 <= i < |pre| ==> NotHeader(pre[i])
    ensures Run(Start, pre) == Start
    decreases |pre|
  {
    if pre != [] {
      PreambleIgnored(pre[..|pre| - 1]);
    }
  }

  /** So lines before the first header change nothing about the result. */
  lemma PreambleDropped(pre: seq<string>, rest: seq<string>)
    requires forall i :: 0 <= i < |pre| ==> NotHeader(pre[i])
    ensures Run(Start, pre + rest) == Run(Start, rest)
  {
    PreambleIgnored(pre);
    RunAppend(Start, pre, rest);
  }

  /** What every state the parser reaches satisfies: the keys are upper case, and every phrase
      and every code is a stripped, non-blank line that is not a header. */
  ghost predicate WellFormed(st: Parsed) {
    KeysUpper(st.frequencies) && AllKept(st.phrases) && AllKept(st.codes)
  }

  ghost predicate KeysUpper(m: map<string, int>) {
    forall k :: k in m ==> UpperStr(k) == k
  }

  predicate AllKept(lines: seq<string>) {
    lines == [] || (AllKept(lines[..|lines| - 1]) && Kept(lines[|lines| - 1]))
  }

  predicate Kept(line: string) {
    line != "" && Strip(line) == line && Header(line).None?
  }

  lemma AllKeptAppend(lines: seq<string>, line: string)
    requires AllKept(lines) && Kept(line)
    ensures AllKept(lines + [line])
  {
    assert (lines + [line])[..|lines|] == lines;
  }

  /** Every kept line satisfies Kept. */
  lemma {:induction false} AllKeptEach(lines: seq<string>, i: nat)
    requires AllKept(lines) && i < |lines|
    ensures Kept(lines[i])
    decreases |lines|
  {
    if i < |lines| - 1 {
      AllKeptEach(lines[..|lines| - 1], i);
    }
  }

  lemma UpperIdempotent(s: string)
    ensures UpperStr(UpperStr(s)) == UpperStr(s)
  {
  }

  lemma KeysUpperInsert(m: map<string, int>, word: string, v: int)
    requires KeysUpper(m)
    ensures KeysUpper(m[UpperStr(word) := v])
  {
    UpperIdempotent(word);
  }

  lemma StepWellFormed(st: Parsed, raw: string)
    requires WellFormed(st)
    ensures WellFormed(Step(st, raw))
  {
    var line := Strip(raw);
    if line != "" && Header(line).None? {
      match st.section
      case FreqSection =>
        var parts := Words(line);
        if |parts| == 2 && IsDigits(parts[1]) {
          KeysUpperInsert(st.frequencies, parts[0], DigitsValue(parts[1]));
        }
      case EncodeSection =>
        StripIdempotent(raw);
        AllKeptAppend(st.phrases, line);
      case DecodeSection =>
        StripIdempotent(raw);
        AllKeptAppend(st.codes, line);
      case NoSection =>
    }
  }

  /** The keys of the parsed table are upper case, and every phrase and code is a stripped,
      non-blank line that is not a header. */
  lemma {:induction false} ParsedWellFormed(lines: seq<string>)
    ensures WellFormed(Run(Start, lines))
    decreases |lines|
  {
    if lines != [] {
      ParsedWellFormed(lines[..|lines| - 1]);
      StepWellFormed(Run(Start, lines[..|lines| - 1]), lines[|lines| - 1]);
    }
  }

  /** In the frequency section a later line for the same letter overwrites an earlier one. */
  lemma LaterEntryWins(st: Parsed, word: string, count: string)
    requires st.section == FreqSection && IsDigits(count)
    requires word != [] && NoSpace(word) && Header(word + " " + count).None?
    ensures Step(st, word + " " + count).frequencies == st.frequencies[UpperStr(word) := DigitsValue(count)]
  {
    var line := word + " " + count;
    assert NoSpace(count) by {
      forall i | 0 <= i < |count|
        ensures !IsSpace(count[i])
      {
        assert IsDigit(count[i]);
      }
    }
    assert Strip(line) == line by {
      assert line[0] == word[0] && line[|line| - 1] == count[|count| - 1];
      StripTrimmed(line);
    }
    WordsOfPair(word, count);
    StepFrequency(st, line, word, count);
  }

  /** A stripped frequency line of two words, the second all digits, sets one entry. */
  lemma StepFrequency(st: Parsed, line: string, word: string, count: string)
    requires st.section == FreqSection && IsDigits(count) && line != ""
    requires Strip(line) == line && Header(line).None? && Words(line) == [word, count]
    ensures Step(st, line).frequencies == st.frequencies[UpperStr(word) := DigitsValue(count)]
  {
  }

  lemma WordsOfPair(word: string, count: string)
    requires word != [] && NoSpace(word) && count != [] && NoSpace(count)
    ensures Words(word + " " + count) == [word, count]
  {
    var s := word + " " + count;
    var n := WordLength(s);
    assert n == |word| by {
      assert s[|word|] == ' ';
      assert s[..|word|] == word;
    }
    assert s[..n] == word;
    assert s[n..][1..] == count;
    WordsOfWord(count);
  }

  lemma WordsOfWord(w: string)
    requires w != [] && NoSpace(w)
    ensures Words(w) == [w]
  {
    var n := WordLength(w);
    assert w[..n] == w;
  }
}
