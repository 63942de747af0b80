/** The consistency pass over the catalog (asm.py, `database_integrity_tests`): four
    `SELECT COUNT(*)` queries, tried in order; the first whose count is not zero
    stops the program. */
module Integrity {
  import opened Wrappers
  import opened Tables

  /** Which of the four checks failed, in the order they are tried. */
  datatype Failure = DanglingSequence | RepNopWithMnemonic | ByteWithMnemonic | JumpWithoutControlFlow

  /** SQLite's `LIKE` folds ASCII letters only: the result is never an upper-case
      letter, and a character changes only when it is one, into its lower-case
      partner. */
  function LowerAscii(ch: char): (r: char)
    ensures !('A' <= r <= 'Z')
    ensures r != ch ==> 'A' <= ch <= 'Z' && 'a' <= r <= 'z' && r as int - 'a' as int == ch as int - 'A' as int
  {
    if 'A' <= ch <= 'Z' then (ch as int + 32) as char else ch
  }

  /** Folding twice is folding once, and two characters fold together exactly when
      they are equal or an upper-case letter and its lower-case partner. */
  lemma LowerAsciiFolds(x: char, y: char)
    ensures LowerAscii(LowerAscii(x)) == LowerAscii(x)
    ensures LowerAscii(x) == LowerAscii(y) <==>
              x == y || ('A' <= x <= 'Z' && y as int == x as int + 32) || ('A' <= y <= 'Z' && x as int == y as int + 32)
  {
  }

  /** Two strings of the same length that are equal up to ASCII case. */
  predicate EqualIgnoringCase(a: string, b: string)
  {
    |a| == |b| && forall k :: 0 <= k < |a| ==> LowerAscii(a[k]) == LowerAscii(b[k])
  }

  /** `pattern` occurs in `text` at offset `i`, up to ASCII case. */
  predicate MatchesAt(text: string, pattern: string, i: nat)
  {
    i + |pattern| <= |text| && EqualIgnoringCase(text[i..i + |pattern|], pattern)
  }

  /** `text LIKE '%pattern%'` for a pattern without wildcards: `pattern` occurs in
      `text` at some offset, up to ASCII case. */
  function ContainsIgnoringCase(text: string, pattern: string): (r: bool)
    ensures r <==> exists i: nat :: MatchesAt(text, pattern, i)
    decreases |text|
  {
    if |text| < |pattern| then false
    else if MatchesAt(text, pattern, 0) then true
    else
      var rest := ContainsIgnoringCase(text[1..], pattern);
      assert forall i: nat :: MatchesAt(text[1..], pattern, i) <==> MatchesAt(text, pattern, i + 1) by {
        forall i: nat ensures MatchesAt(text[1..], pattern, i) <==> MatchesAt(text, pattern, i + 1) {
          if i + |pattern| <= |text[1..]| {
            assert text[1..][i..i + |pattern|] == text[i + 1..i + 1 + |pattern|];
          }
        }
      }
      assert (exists i: nat :: MatchesAt(text, pattern, i)) ==> exists i: nat :: MatchesAt(text[1..], pattern, i) by {
        if exists i: nat :: MatchesAt(text, pattern, i) {
          var i: nat :| MatchesAt(text, pattern, i);
          assert i != 0;
          assert MatchesAt(text[1..], pattern, i - 1);
        }
      }
      rest
  }

  /** The occurrence names a sequence that is not in `AsmSequence`. */
  predicate Dangling(o: Occurrence, sequences: seq<AsmSequence>)
  {
    o.sequenceId !in SequenceIds(sequences)
  }

  /** `MNEMONIC = 1 AND (CODE LIKE '%rep; nop%' OR CODE LIKE '%rep;nop%')`; a NULL
      column makes the condition false. */
  predicate RepNopInMnemonicCode(o: Occurrence)
  {
    o.mnemonic == Some(1) && o.code.Some?
    && (ContainsIgnoringCase(o.code.value, "rep; nop") || ContainsIgnoringCase(o.code.value, "rep;nop"))
  }

  /** `CODE LIKE '%.byte%' AND MNEMONIC = 1`. */
  predicate ByteInMnemonicCode(o: Occurrence)
  {
    o.code.Some? && ContainsIgnoringCase(o.code.value, ".byte") && o.mnemonic == Some(1)
  }

  /** `INSTRUCTION LIKE 'j%' AND CONTROL_FLOW = 0`. */
  predicate JumpNotControlFlow(ins: AsmInstruction)
  {
    |ins.text| > 0 && LowerAscii(ins.text[0]) == 'j' && ins.controlFlow == Some(false)
  }

  /** `SELECT COUNT(*) ... WHERE p`: the number of rows satisfying `p`. */
  function Count<T>(rows: seq<T>, p: T -> bool): (n: nat)
    ensures n <= |rows|
    ensures n == 0 <==> forall k :: 0 <= k < |rows| ==> !p(rows[k])
  {
    if rows == [] then 0
    else (if p(rows[0]) then 1 else 0) + Count(rows[1..], p)
  }

  /** `database_integrity_tests()`: None when every count is zero, otherwise the
      first check whose count is not. */
  function IntegrityCheck(occurrences: seq<Occurrence>, sequences: seq<AsmSequence>,
                          instructions: seq<AsmInstruction>): (r: Option<Failure>)
    ensures r == Some(DanglingSequence) <==>
      exists k :: 0 <= k < |occurrences| && Dangling(occurrences[k], sequences)
    ensures r == Some(RepNopWithMnemonic) <==>
      (forall k :: 0 <= k < |occurrences| ==> !Dangling(occurrences[k], sequences))
      && exists k :: 0 <= k < |occurrences| && RepNopInMnemonicCode(occurrences[k])
    ensures r == Some(ByteWithMnemonic) <==>
      (forall k :: 0 <= k < |occurrences| ==> !Dangling(occurrences[k], sequences) && !RepNopInMnemonicCode(occurrences[k]))
      && exists k :: 0 <= k < |occurrences| && ByteInMnemonicCode(occurrences[k])
    ensures r == Some(JumpWithoutControlFlow) <==>
      (forall k :: 0 <= k < |occurrences| ==>
         !Dangling(occurrences[k], sequences) && !RepNopInMnemonicCode(occurrences[k]) && !ByteInMnemonicCode(occurrences[k]))
      && exists m :: 0 <= m < |instructions| && JumpNotControlFlow(instructions[m])
    ensures r == None <==>
      (forall k :: 0 <= k < |occurrences| ==>
         !Dangling(occurrences[k], sequences) && !RepNopInMnemonicCode(occurrences[k]) && !ByteInMnemonicCode(occurrences[k]))
      && forall m :: 0 <= m < |instructions| ==> !JumpNotControlFlow(instructions[m])
  {
    if Count(occurrences, o => Dangling(o, sequences)) != 0 then Some(DanglingSequence)
    else if Count(occurrences, RepNopInMnemonicCode) != 0 then Some(RepNopWithMnemonic)
    else if Count(occurrences, ByteInMnemonicCode) != 0 then Some(ByteWithMnemonic)
    else if Count(instructions, JumpNotControlFlow) != 0 then Some(JumpWithoutControlFlow)
    else None
  }

  /** A store whose occurrences all resolve never fails the first check. */
  lemma ResolvedStoreHasNoDanglingSequence(occurrences: seq<Occurrence>, sequences: seq<AsmSequence>,
                                           projects: seq<GithubProject>, instructions: seq<AsmInstruction>)
    requires OccurrencesResolve(occurrences, sequences, projects)
    ensures IntegrityCheck(occurrences, sequences, instructions) != Some(DanglingSequence)
  {
  }

  /** One occurrence pointing at a sequence that was never stored is reported as a
      dangling sequence, whatever else the store holds. */
  lemma OneDanglingOccurrence(sequences: seq<AsmSequence>, instructions: seq<AsmInstruction>, o: Occurrence)
    requires o.sequenceId !in SequenceIds(sequences)
    ensures IntegrityCheck([o], sequences, instructions) == Some(DanglingSequence)
  {
    assert Dangling([o][0], sequences);
  }

  /** The `LIKE` patterns ignore case: an upper-case `REP;NOP` in mnemonic code fails
      the second check, and a `.byte` in code without mnemonics passes it. */
  lemma LikeExamples()
    ensures RepNopInMnemonicCode(Occurrence("a.c", 1, 1, Some("REP;NOP"), Some(1)))
    ensures !ByteInMnemonicCode(Occurrence("a.c", 1, 1, Some(".byte 0xf3"), Some(0)))
    ensures JumpNotControlFlow(AsmInstruction(1, "JMP", "", Some(false)))
  {
    assert MatchesAt("REP;NOP", "rep;nop", 0);
  }
}
