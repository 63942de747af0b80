/** The instruction-format rules applied to a submitted instruction sequence before
    anything is stored (asm.py, `check_for_invalid_instructions`), and the way a
    sequence text is cut into instruction tokens (asm.py, `add_asm_sequence`). */
module Validation {
  import opened Wrappers
  import opened Strings

  /** Why a token is refused. */
  datatype Rejection =
    | BarePrefix          // `lock`, `rep` or `repne` standing alone
    | RepNop              // the literal token `rep nop`
    | MalformedInterrupt  // `int ` not followed by `$0x` and two lower-case hex digits

  datatype Invalid = Invalid(token: string, reason: Rejection)

  predicate IsLowerHexDigit(ch: char)
  {
    '0' <= ch <= '9' || 'a' <= ch <= 'f'
  }

  /** `re.match('int \$0x[0-9a-f]{2}', t)`: a prefix match, so anything may follow. */
  predicate WellFormedInterrupt(t: string)
  {
    |t| >= 9 && t[..7] == "int $0x" && IsLowerHexDigit(t[7]) && IsLowerHexDigit(t[8])
  }

  /** The rules for one token, in the order the program applies them.
      `re.match('int .*', t)` holds exactly when `t` starts with `int `.
      A bare `xchg` only draws a warning, so it is not a problem. */
  function Problem(token: string): (r: Option<Rejection>)
    ensures r.None? <==>
      token !in ["lock", "rep", "repne", "rep nop"] && (StartsWith(token, "int ") ==> WellFormedInterrupt(token))
    ensures r == Some(MalformedInterrupt) ==> StartsWith(token, "int ")
  {
    if token == "lock" || token == "rep" || token == "repne" then Some(BarePrefix)
    else if token == "rep nop" then Some(RepNop)
    else if StartsWith(token, "int ") && !WellFormedInterrupt(token) then Some(MalformedInterrupt)
    else None
  }

  /** The loop over the tokens: the first token that breaks a rule stops the program. */
  function FirstInvalid(tokens: seq<string>): (r: Option<Invalid>)
    ensures r.None? <==> forall i :: 0 <= i < |tokens| ==> Problem(tokens[i]).None?
    ensures r.Some? ==>
      exists i :: 0 <= i < |tokens| && tokens[i] == r.value.token && Problem(tokens[i]) == Some(r.value.reason)
                  && forall j :: 0 <= j < i ==> Problem(tokens[j]).None?
  {
    if tokens == [] then None
    else match Problem(tokens[0])
      case Some(why) => Some(Invalid(tokens[0], why))
      case None =>
        var r := FirstInvalid(tokens[1..]);
        assert forall i :: 1 <= i < |tokens| ==> tokens[i] == tokens[1..][i - 1];
        r
  }

  /** `instrs.replace(',', ';').split(';')`: the tokens of a sequence text, in source order. */
  function Tokens(text: string): (tokens: seq<string>)
    ensures |tokens| >= 1
    ensures forall i :: 0 <= i < |tokens| ==> ',' !in tokens[i] && ';' !in tokens[i]
    ensures Join(tokens, ';') == Replace(text, ',', ';')
  {
    var joined := Replace(text, ',', ';');
    assert forall k :: 0 <= k < |joined| ==> joined[k] != ',';
    JoinSplit(joined, ';');
    var parts := Split(joined, ';');
    forall i | 0 <= i < |parts| ensures ',' !in parts[i] {
      assert ',' !in joined;
    }
    parts
  }

  /** A sequence text that has no commas and whose separator-free pieces are
      given is cut back into exactly those pieces. */
  lemma TokensOfJoin(pieces: seq<string>)
    requires |pieces| >= 1
    requires forall i :: 0 <= i < |pieces| ==> ',' !in pieces[i] && ';' !in pieces[i]
    ensures Tokens(Join(pieces, ';')) == pieces
  {
    var text := Join(pieces, ';');
    JoinNoComma(pieces);
    assert Replace(text, ',', ';') == text;
    SplitJoin(pieces, ';');
  }

  lemma {:induction false} JoinNoComma(pieces: seq<string>)
    requires forall i :: 0 <= i < |pieces| ==> ',' !in pieces[i]
    ensures ',' !in Join(pieces, ';')
  {
    if |pieces| > 1 {
      JoinNoComma(pieces[1..]);
    }
  }

  /** Rule by rule: the outcome for the interrupt, prefix and pause tokens. */
  lemma InterruptRule(token: string)
    requires StartsWith(token, "int ")
    ensures Problem(token).None? <==> WellFormedInterrupt(token)
  {
  }

  /** `int 3` is refused and `int $0x80` accepted; a bare `xchg` passes. */
  lemma InterruptExamples()
    ensures Problem("int 3") == Some(MalformedInterrupt)
    ensures Problem("int $0x80") == None
    ensures Problem("xchg") == None
  {
    assert StartsWith("int 3", "int ");
    assert !WellFormedInterrupt("int 3");
    assert "int $0x80"[..7] == "int $0x";
  }
}
