/** Reading the code-line counts of C, C++, C/C++ headers and assembly out of
    the summary table that `cloc .` prints (`get_c_cpp_h_assembly_loc`). */
module Cloc {
  import opened Wrappers
  import opened Strings

  datatype Language = C | Header | Cpp | Assembly

  /** `\s` on ASCII: space, tab, newline, carriage return, vertical tab, form feed. */
  predicate IsSpace(ch: char)
  {
    ch == ' ' || ch == '\t' || ch == '\n' || ch == '\r' || ch == 11 as char || ch == 12 as char
  }

  /** `\d` on ASCII. */
  predicate IsDigit(ch: char)
  {
    '0' <= ch <= '9'
  }

  /** The length of the longest prefix of `s` made of whitespace. */
  function SpaceRun(s: string): (n: nat)
    ensures n <= |s|
    ensures forall i :: 0 <= i < n ==> IsSpace(s[i])
    ensures n < |s| ==> !IsSpace(s[n])
  {
    if s == [] || !IsSpace(s[0]) then 0 else 1 + SpaceRun(s[1..])
  }

  /** The length of the longest prefix of `s` made of digits. */
  function DigitRun(s: string): (n: nat)
    ensures n <= |s|
    ensures forall i :: 0 <= i < n ==> IsDigit(s[i])
    ensures n < |s| ==> !IsDigit(s[n])
  {
    if s == [] || !IsDigit(s[0]) then 0 else 1 + DigitRun(s[1..])
  }

  /** The value of one decimal digit. */
  function DigitValue(ch: char): nat
    requires IsDigit(ch)
  {
    ch as int - '0' as int
  }

  function Pow10(n: nat): nat
  {
    if n == 0 then 1 else 10 * Pow10(n - 1)
  }

  /** `int(ds)` for a string of decimal digits: fewer than `10^|ds|`. */
  function DigitsValue(ds: string): (r: nat)
    requires forall i :: 0 <= i < |ds| ==> IsDigit(ds[i])
    ensures r < Pow10(|ds|)
  {
    if ds == [] then 0
    else 10 * DigitsValue(ds[..|ds| - 1]) + DigitValue(ds[|ds| - 1])
  }

  /** `k` repetitions of `\s+\d+` at the start of `s`; the value of the last digit
      run, which is the group the patterns capture. Each run is taken whole:
      a space never follows inside a digit run nor a digit inside a space run,
      so the greedy runs are the only way the pattern can match. */
  function Fields(s: string, k: nat): (r: Option<nat>)
    requires k >= 1
    ensures r.Some? ==> |s| > 0 && IsSpace(s[0])
    decreases k
  {
    var sp := SpaceRun(s);
    if sp == 0 then None
    else
      var t := s[sp..];
      var d := DigitRun(t);
      if d == 0 then None
      else if k == 1 then Some(DigitsValue(t[..d]))
      else Fields(t[d..], k - 1)
  }

  /** The row label each language's pattern starts with; the header pattern puts
      one `\s` between `C/C++` and `Header`. */
  function Label(lang: Language): string
  {
    match lang
    case C => "C"
    case Header => "C/C++ Header"
    case Cpp => "C++"
    case Assembly => "Assembly"
  }

  /** `re.match` of the language's pattern on one line: the label, then four
      columns (files, blank, comment, code); the code count if it matches. */
  function Match(lang: Language, line: string): Option<nat>
  {
    match lang
    case C =>
      if |line| >= 1 && line[0] == 'C' then Columns4(line, 1) else None
    case Header =>
      if |line| >= 12 && line[..5] == "C/C++" && IsSpace(line[5]) && line[6..12] == "Header"
      then Columns4(line, 12) else None
    case Cpp =>
      if |line| >= 3 && line[..3] == "C++" then Columns4(line, 3) else None
    case Assembly =>
      if |line| >= 8 && line[..8] == "Assembly" then Columns4(line, 8) else None
  }

  lemma MatchLeads(lang: Language, line: string)
    requires Match(lang, line).Some?
    ensures |line| > |Label(lang)| && LeadsWith(lang, line)
  {
    match lang
    case C =>
    case Header => HeaderLeads(line);
    case Cpp => CppLeads(line);
    case Assembly => AssemblyLeads(line);
  }

  lemma HeaderLeads(line: string)
    requires Match(Header, line).Some?
    ensures LeadsWith(Header, line)
  {
    var head := line[..5];
    assert head == "C/C++";
    assert head[0] == 'C' && head[1] == '/';
    assert line[0] == head[0] && line[1] == head[1];
  }

  lemma CppLeads(line: string)
    requires Match(Cpp, line).Some?
    ensures LeadsWith(Cpp, line)
  {
    var head := line[..3];
    assert head == "C++";
    assert head[0] == 'C' && head[1] == '+';
    assert line[0] == head[0] && line[1] == head[1];
  }

  lemma AssemblyLeads(line: string)
    requires Match(Assembly, line).Some?
    ensures LeadsWith(Assembly, line)
  {
    var head := line[..8];
    assert head == "Assembly";
    assert head[0] == 'A';
    assert line[0] == head[0];
  }

  /** The four columns after the first `start` characters of `line`. */
  function Columns4(line: string, start: nat): (r: Option<nat>)
    requires start <= |line|
    ensures r.Some? ==> start < |line| && IsSpace(line[start])
  {
    var r := Fields(line[start..], 4);
    assert r.Some? ==> line[start..][0] == line[start];
    r
  }

  /** What the first two characters of a matching line are: enough to tell the
      four patterns apart. */
  predicate LeadsWith(lang: Language, line: string)
  {
    |line| >= 2 &&
    match lang
    case C => line[0] == 'C' && IsSpace(line[1])
    case Header => line[0] == 'C' && line[1] == '/'
    case Cpp => line[0] == 'C' && line[1] == '+'
    case Assembly => line[0] == 'A'
  }

  /** The outcome of matching each line. */
  function Matches(lang: Language, lines: seq<string>): (ms: seq<Option<nat>>)
    ensures |ms| == |lines|
    ensures forall i :: 0 <= i < |lines| ==> ms[i] == Match(lang, lines[i])
  {
    seq(|lines|, i requires 0 <= i < |lines| => Match(lang, lines[i]))
  }

  /** The value a counter holds after it was overwritten by every `Some` of
      `ms` in turn, starting from 0. */
  function LastSome(ms: seq<Option<nat>>): (r: nat)
    ensures r == 0 || exists i :: 0 <= i < |ms| && ms[i] == Some(r)
  {
    if ms == [] then 0
    else match ms[|ms| - 1]
      case Some(n) => n
      case None => LastSome(ms[..|ms| - 1])
  }

  /** The count for `lang` after the loop over `lines`: the last line that
      matches overwrites the others, and 0 stays when none matches. */
  function LastMatch(lang: Language, lines: seq<string>): (r: nat)
    ensures r == 0 || exists i :: 0 <= i < |lines| && Match(lang, lines[i]) == Some(r)
  {
    LastSome(Matches(lang, lines))
  }

  /** One more line: its match, if any, replaces the count. */
  lemma LastMatchStep(lang: Language, lines: seq<string>, i: nat)
    requires i < |lines|
    ensures LastMatch(lang, lines[..i + 1])
      == (match Match(lang, lines[i]) case Some(n) => n case None => LastMatch(lang, lines[..i]))
  {
    var ms := Matches(lang, lines[..i + 1]);
    assert ms[..i] == Matches(lang, lines[..i]);
  }

  /** `get_c_cpp_h_assembly_loc` after running cloc: splits its output at
      newlines and, line by line, lets every pattern that matches overwrite its
      count. Returns (C, C++, header, assembly) in the program's order. */
  method ClocCounts(output: string) returns (cLines: nat, cppLines: nat, hLines: nat, assemblyLines: nat)
    ensures cLines == LastMatch(C, Split(output, '\n'))
    ensures cppLines == LastMatch(Cpp, Split(output, '\n'))
    ensures hLines == LastMatch(Header, Split(output, '\n'))
    ensures assemblyLines == LastMatch(Assembly, Split(output, '\n'))
  {
    var lines := Split(output, '\n');
    cLines, hLines, cppLines, assemblyLines := 0, 0, 0, 0;
    var i := 0;
    while i < |lines|
      invariant 0 <= i <= |lines|
      invariant cLines == LastMatch(C, lines[..i])
      invariant hLines == LastMatch(Header, lines[..i])
      invariant cppLines == LastMatch(Cpp, lines[..i])
      invariant assemblyLines == LastMatch(Assembly, lines[..i])
    {
      var line := lines[i];
      LastMatchStep(C, lines, i);
      LastMatchStep(Header, lines, i);
      LastMatchStep(Cpp, lines, i);
      LastMatchStep(Assembly, lines, i);
      var m := Match(C, line);
      if m.Some? {
        cLines := m.value;
      }
      m := Match(Header, line);
      if m.Some? {
        hLines := m.value;
      }
      m := Match(Cpp, line);
      if m.Some? {
        cppLines := m.value;
      }
      m := Match(Assembly, line);
      if m.Some? {
        assemblyLines := m.value;
      }
      i := i + 1;
    }
    assert lines[..i] == lines;
  }

  lemma {:induction false} LastSomeIsLast(ms: seq<Option<nat>>, i: nat)
    requires i < |ms| && ms[i].Some?
    requires forall j :: i < j < |ms| ==> ms[j].None?
    ensures LastSome(ms) == ms[i].value
    decreases |ms|
  {
    if i < |ms| - 1 {
      var front := ms[..|ms| - 1];
      assert forall j :: i < j < |front| ==> front[j] == ms[j];
      LastSomeIsLast(front, i);
    }
  }

  lemma {:induction false} LastSomeWithoutSome(ms: seq<Option<nat>>)
    requires forall j :: 0 <= j < |ms| ==> ms[j].None?
    ensures LastSome(ms) == 0
    decreases |ms|
  {
    if ms != [] {
      var front := ms[..|ms| - 1];
      assert forall j :: 0 <= j < |front| ==> front[j] == ms[j];
      LastSomeWithoutSome(front);
    }
  }

  /** The count is the one of the last matching line. */
  lemma LastMatchIsLastMatchingLine(lang: Language, lines: seq<string>, i: nat)
    requires i < |lines| && Match(lang, lines[i]).Some?
    requires forall j :: i < j < |lines| ==> Match(lang, lines[j]).None?
    ensures LastMatch(lang, lines) == Match(lang, lines[i]).value
  {
    LastSomeIsLast(Matches(lang, lines), i);
  }

  /** Without a matching line the count stays 0. */
  lemma LastMatchWithoutMatch(lang: Language, lines: seq<string>)
    requires forall j :: 0 <= j < |lines| ==> Match(lang, lines[j]).None?
    ensures LastMatch(lang, lines) == 0
  {
    LastSomeWithoutSome(Matches(lang, lines));
  }

  /** No line is counted for two languages: the C pattern needs whitespace after
      the `C`, the C++ pattern a `+` and the header pattern a `/`. */
  lemma MatchesOneLanguage(line: string, lang: Language, other: Language)
    requires lang != other && Match(lang, line).Some?
    ensures Match(other, line).None?
  {
    MatchLeads(lang, line);
    if Match(other, line).Some? {
      MatchLeads(other, line);
    }
  }

  /** The decimal rendering of `n` cloc prints. */
  function Show(n: nat): (s: string)
    ensures |s| >= 1
    ensures forall i :: 0 <= i < |s| ==> IsDigit(s[i])
  {
    if n < 10 then [('0' as int + n) as char]
    else Show(n / 10) + [('0' as int + n % 10) as char]
  }

  lemma {:induction false} DigitsValueOfShow(n: nat)
    ensures DigitsValue(Show(n)) == n
  {
    if n >= 10 {
      DigitsValueOfShow(n / 10);
      var s := Show(n);
      assert s[..|s| - 1] == Show(n / 10);
    }
  }

  function Spaces(gap: nat): (s: string)
    ensures |s| == gap && forall i :: 0 <= i < gap ==> s[i] == ' '
  {
    seq(gap, _ => ' ')
  }

  /** Columns of numbers, each after `gap` spaces, followed by `rest`. */
  function Columns(gap: nat, ns: seq<nat>, rest: string): string
  {
    if ns == [] then rest else Spaces(gap) + Show(ns[0]) + Columns(gap, ns[1..], rest)
  }

  /** A table row as cloc prints it. */
  function Row(lang: Language, gap: nat, files: nat, blank: nat, comment: nat, code: nat, rest: string): string
  {
    Label(lang) + Columns(gap, [files, blank, comment, code], rest)
  }

  lemma SpaceRunOf(sp: string, t: string)
    requires forall i :: 0 <= i < |sp| ==> IsSpace(sp[i])
    requires t == [] || !IsSpace(t[0])
    ensures SpaceRun(sp + t) == |sp|
  {
    var s := sp + t;
    assert forall i :: 0 <= i < |sp| ==> s[i] == sp[i];
    assert |sp| < |s| ==> s[|sp|] == t[0];
  }

  lemma DigitRunOf(ds: string, t: string)
    requires forall i :: 0 <= i < |ds| ==> IsDigit(ds[i])
    requires t == [] || !IsDigit(t[0])
    ensures DigitRun(ds + t) == |ds|
  {
    var s := ds + t;
    assert forall i :: 0 <= i < |ds| ==> s[i] == ds[i];
    assert |ds| < |s| ==> s[|ds|] == t[0];
  }

  /** One `\s+\d+` step: the whitespace run and the digit run are consumed whole;
      the last step gives the value of the digits. */
  lemma FieldsLastStep(sp: string, ds: string, after: string)
    requires |sp| >= 1 && |ds| >= 1
    requires forall i :: 0 <= i < |sp| ==> IsSpace(sp[i])
    requires forall i :: 0 <= i < |ds| ==> IsDigit(ds[i])
    requires after == [] || !IsDigit(after[0])
    ensures Fields(sp + (ds + after), 1) == Some(DigitsValue(ds))
  {
    FieldsRuns(sp, ds, after);
  }

  /** An earlier step leaves what follows the digits to the remaining steps. */
  lemma FieldsNextStep(sp: string, ds: string, after: string, k: nat)
    requires k >= 2 && |sp| >= 1 && |ds| >= 1
    requires forall i :: 0 <= i < |sp| ==> IsSpace(sp[i])
    requires forall i :: 0 <= i < |ds| ==> IsDigit(ds[i])
    requires after == [] || !IsDigit(after[0])
    ensures Fields(sp + (ds + after), k) == Fields(after, k - 1)
  {
    FieldsRuns(sp, ds, after);
  }

  /** The runs `Fields` takes from `sp + (ds + after)` are `sp` and `ds`. */
  lemma FieldsRuns(sp: string, ds: string, after: string)
    requires |ds| >= 1
    requires forall i :: 0 <= i < |sp| ==> IsSpace(sp[i])
    requires forall i :: 0 <= i < |ds| ==> IsDigit(ds[i])
    requires after == [] || !IsDigit(after[0])
    ensures SpaceRun(sp + (ds + after)) == |sp|
    ensures (sp + (ds + after))[|sp|..] == ds + after
    ensures DigitRun(ds + after) == |ds|
    ensures (ds + after)[..|ds|] == ds && (ds + after)[|ds|..] == after
  {
    var t := ds + after;
    assert t[0] == ds[0];
    SpaceRunOf(sp, t);
    DigitRunOf(ds, after);
  }

  /** Printed columns start with a space, or are `rest` when there are none. */
  lemma ColumnsStart(gap: nat, ns: seq<nat>, rest: string)
    requires gap >= 1
    requires rest == [] || !IsDigit(rest[0])
    ensures var c := Columns(gap, ns, rest); c == [] || !IsDigit(c[0])
  {
    if ns != [] {
      assert Columns(gap, ns, rest)[0] == Spaces(gap)[0];
    }
  }

  /** Reading `k` columns back gives the last of the `k` numbers written, when
      what follows the columns does not continue the last number. */
  lemma {:induction false} FieldsOfColumns(gap: nat, ns: seq<nat>, rest: string)
    requires gap >= 1 && |ns| >= 1
    requires rest == [] || !IsDigit(rest[0])
    ensures Fields(Columns(gap, ns, rest), |ns|) == Some(ns[|ns| - 1])
    decreases |ns|
  {
    var tail := ns[1..];
    if |ns| > 1 {
      FieldsOfNextColumn(gap, ns, rest);
      FieldsOfColumns(gap, tail, rest);
      assert tail[|tail| - 1] == ns[|ns| - 1];
    } else {
      FieldsOfLastColumn(gap, ns[0], rest);
      DigitsValueOfShow(ns[0]);
    }
  }

  /** Reading the last column gives its number. */
  lemma FieldsOfLastColumn(gap: nat, n: nat, rest: string)
    requires gap >= 1
    requires rest == [] || !IsDigit(rest[0])
    ensures Fields(Columns(gap, [n], rest), 1) == Some(DigitsValue(Show(n)))
  {
    var line := Columns(gap, [n], rest);
    ColumnsUnfold(gap, [n], rest);
    assert [n][1..] == [];
    FieldsLastStep(Spaces(gap), Show(n), rest);
  }

  /** Reading an earlier column leaves the remaining columns to read. */
  lemma FieldsOfNextColumn(gap: nat, ns: seq<nat>, rest: string)
    requires gap >= 1 && |ns| >= 2
    requires rest == [] || !IsDigit(rest[0])
    ensures Fields(Columns(gap, ns, rest), |ns|) == Fields(Columns(gap, ns[1..], rest), |ns| - 1)
  {
    var after := Columns(gap, ns[1..], rest);
    var sp, ds := Spaces(gap), Show(ns[0]);
    ColumnsUnfold(gap, ns, rest);
    assert Columns(gap, ns, rest) == sp + (ds + after);
    ColumnsStart(gap, ns[1..], rest);
    assert after == [] || !IsDigit(after[0]);
    FieldsNextStep(sp, ds, after, |ns|);
    assert Fields(sp + (ds + after), |ns|) == Fields(after, |ns| - 1);
  }

  /** One column of `Columns`: the spaces, the first number, then the others. */
  lemma ColumnsUnfold(gap: nat, ns: seq<nat>, rest: string)
    requires ns != []
    ensures Columns(gap, ns, rest) == Spaces(gap) + (Show(ns[0]) + Columns(gap, ns[1..], rest))
  {
  }

  /** The label of each language is followed by the four columns. */
  lemma MatchOfLabel(lang: Language, columns: string)
    ensures Match(lang, Label(lang) + columns) == Fields(columns, 4)
  {
    var line := Label(lang) + columns;
    assert line[|Label(lang)|..] == columns;
    match lang
    case C =>
    case Header =>
      assert line[..5] == "C/C++";
      assert line[5] == ' ';
      assert line[6..12] == "Header";
    case Cpp =>
      assert line[..3] == "C++";
    case Assembly =>
      assert line[..8] == "Assembly";
  }

  /** A row printed for a language is read back as that language's code count,
      whatever the spacing and whatever follows the last column. */
  lemma MatchOfRow(lang: Language, gap: nat, files: nat, blank: nat, comment: nat, code: nat, rest: string)
    requires gap >= 1
    requires rest == [] || !IsDigit(rest[0])
    ensures Match(lang, Row(lang, gap, files, blank, comment, code, rest)) == Some(code)
  {
    FieldsOfColumns(gap, [files, blank, comment, code], rest);
    MatchOfLabel(lang, Columns(gap, [files, blank, comment, code], rest));
  }
}
