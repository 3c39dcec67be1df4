/** `GetRandomStr`: expand a pattern such as `"id-?d?d?u"` into a random string.

    The scanner walks the pattern byte by byte. `?d`, `?l` and `?u` each become
    one random character from the digits, the lower-case letters or the
    upper-case letters; `?` followed by any other byte aborts the whole call; a
    `?` that is the last byte is copied; every other byte is copied.

    The reference definition splits the pattern into pieces (`Tokenize`) and
    then fills every piece with one character (`Fill`); the scanner is proved
    to agree with it, and the properties are stated on the pieces. */
module Pattern {
  import opened Errors
  import opened Random

  const Digits: string := "0123456789"
  const LowerCaseLetters: string := "abcdefghijklmnopqrstuvwxyz"
  const UpperCaseLetters: string := "ABCDEFGHIJKLMNOPQRSTUVWXYZ"

  datatype CharClass = Digit | Lower | Upper

  /** One unit of a pattern: a byte copied as it is, or an escape `?d`, `?l`, `?u`. */
  datatype Piece = Literal(c: char) | Escape(cls: CharClass)

  function Alphabet(cls: CharClass): (a: string)
    ensures |a| > 0
  {
    match cls
    case Digit => Digits
    case Lower => LowerCaseLetters
    case Upper => UpperCaseLetters
  }

  /** The letter that may follow `?`, and the class it selects. */
  function ClassOf(c: char): Option<CharClass> {
    if c == 'd' then Some(Digit)
    else if c == 'l' then Some(Lower)
    else if c == 'u' then Some(Upper)
    else None
  }

  function Letter(cls: CharClass): char {
    match cls
    case Digit => 'd'
    case Lower => 'l'
    case Upper => 'u'
  }

  /** The first character of a class; its alphabet is the contiguous run starting there. */
  function First(cls: CharClass): char {
    match cls
    case Digit => '0'
    case Lower => 'a'
    case Upper => 'A'
  }

  /** `c` is a digit, a lower-case or an upper-case ASCII letter, as `cls` says. */
  predicate InClass(c: char, cls: CharClass) {
    match cls
    case Digit => '0' <= c <= '9'
    case Lower => 'a' <= c <= 'z'
    case Upper => 'A' <= c <= 'Z'
  }

  /** The alphabets are the contiguous ASCII runs `0-9`, `a-z`, `A-Z`. */
  lemma AlphabetIsRun(cls: CharClass)
    ensures |Alphabet(cls)| == (if cls == Digit then 10 else 26)
    ensures forall i :: 0 <= i < |Alphabet(cls)| ==> Alphabet(cls)[i] == (First(cls) as int + i) as char
  {
    assert UpperCaseLetters == seq(26, i requires 0 <= i < 26 => ('A' as int + i) as char);
  }

  /** The character an escape of class `cls` becomes for one raw draw. */
  function Pick(cls: CharClass, draw: nat): char {
    Alphabet(cls)[Intn(|Alphabet(cls)|, draw)]
  }

  /** Every pick is a character of its class. */
  lemma PickInClass(cls: CharClass, draw: nat)
    ensures InClass(Pick(cls, draw), cls)
  {
    AlphabetIsRun(cls);
  }

  /** Every character of the class is the pick of some draw. */
  lemma PickReaches(cls: CharClass, c: char)
    requires InClass(c, cls)
    ensures Pick(cls, c as int - First(cls) as int) == c
  {
    AlphabetIsRun(cls);
  }

  /** A pattern is accepted when every `?` that has a successor is followed by d, l or u. */
  ghost predicate WellFormed(p: string) {
    forall i :: 0 <= i < |p| - 1 && p[i] == '?' ==> ClassOf(p[i + 1]).Some?
  }

  function Prepend(x: Piece, rest: Option<seq<Piece>>): Option<seq<Piece>> {
    match rest
    case None => None
    case Some(ps) => Some([x] + ps)
  }

  /** Reference split of a pattern into pieces; `None` when an escape letter is invalid. */
  function Tokenize(p: string): Option<seq<Piece>>
    decreases |p|
  {
    if |p| == 0 then Some([])
    else if p[0] != '?' then Prepend(Literal(p[0]), Tokenize(p[1..]))
    else if |p| == 1 then Some([Literal('?')])
    else match ClassOf(p[1])
      case None => None
      case Some(cls) => Prepend(Escape(cls), Tokenize(p[2..]))
  }

  /** The pattern text a sequence of pieces stands for. */
  function Spell(ps: seq<Piece>): string {
    if ps == [] then []
    else match ps[0]
      case Literal(c) => [c] + Spell(ps[1..])
      case Escape(cls) => ['?', Letter(cls)] + Spell(ps[1..])
  }

  /** Pieces a pattern can split into: a literal `?` only at the very end. */
  ghost predicate Canonical(ps: seq<Piece>) {
    forall j :: 0 <= j < |ps| - 1 ==> ps[j] != Literal('?')
  }

  /** Number of escapes, i.e. of random draws the pieces consume. */
  function Draws(ps: seq<Piece>): nat {
    if ps == [] then 0 else Cost(ps[0]) + Draws(ps[1..])
  }

  /** Draws one piece consumes: one for an escape, none for a literal. */
  function Cost(x: Piece): nat {
    if x.Escape? then 1 else 0
  }

  /** The character one piece becomes, given the draw it would consume. */
  function Emit(x: Piece, draw: nat): char {
    match x
    case Literal(c) => c
    case Escape(cls) => Pick(cls, draw)
  }

  /** `s` is one possible expansion of `ps`: one character per piece, literals
      copied, escapes drawn from their alphabet. */
  ghost predicate Conforms(s: string, ps: seq<Piece>) {
    && |s| == |ps|
    && forall j :: 0 <= j < |ps| ==>
         match ps[j]
         case Literal(c) => s[j] == c
         case Escape(cls) => InClass(s[j], cls)
  }

  /** Expansion of the pieces, escape number `i` (counting from `k`) using draw `rng(k + i)`. */
  function Fill(ps: seq<Piece>, rng: Stream, k: nat): (s: string)
    ensures |s| == |ps|
  {
    if ps == [] then [] else [Emit(ps[0], rng(k))] + Fill(ps[1..], rng, k + Cost(ps[0]))
  }

  /** Reference result of `GetRandomStr`. */
  function Expand(p: string, rng: Stream): Result<string> {
    match Tokenize(p)
    case None => Err(InvalidPatternIdentifier)
    case Some(ps) => Ok(Fill(ps, rng, 0))
  }

  function Suffix(p: string, i: nat): string {
    if i <= |p| then p[i..] else []
  }

  /** What the call returns when `result` has been emitted so far, the rest of
      the pattern splits into `rest`, and `k` draws have been used. */
  function Continue(result: string, rest: Option<seq<Piece>>, rng: Stream, k: nat): Result<string> {
    match rest
    case None => Err(InvalidPatternIdentifier)
    case Some(ps) => Ok(result + Fill(ps, rng, k))
  }

  /** The scanner of utils.go:26-51, index by index; the `i++` after `?` is the
      one-byte lookahead. */
  method GetRandomStr(pattern: string, rng: Stream) returns (r: Result<string>)
    ensures r == Expand(pattern, rng)
    ensures r.Ok? <==> WellFormed(pattern)
    ensures r.Err? ==> r.error == InvalidPatternIdentifier
  {
    var result: string := [];
    var k: nat := 0;
    var i: nat := 0;
    TokenizeWellFormed(pattern);
    if Tokenize(pattern).Some? {
      assert [] + Fill(Tokenize(pattern).value, rng, 0) == Fill(Tokenize(pattern).value, rng, 0);
    }
    while i < |pattern|
      invariant i <= |pattern| + 1
      invariant Expand(pattern, rng) == Continue(result, Tokenize(Suffix(pattern, i)), rng, k)
      decreases |pattern| + 1 - i
    {
      var ok: bool;
      ok, i, result, k := ScanStep(pattern, rng, i, result, k);
      if !ok {
        return Err(InvalidPatternIdentifier);
      }
    }
    assert Suffix(pattern, i) == [];
    assert result + [] == result;
    r := Ok(result);
  }

  /** One turn of the scanner's loop: a literal byte, an escape, a trailing
      `?`, or the failure on an unknown escape letter. Whatever the rest of the
      pattern holds, the call's outcome is unchanged by the step. */
  method ScanStep(pattern: string, rng: Stream, i: nat, result: string, k: nat)
    returns (ok: bool, i': nat, result': string, k': nat)
    requires i < |pattern|
    ensures ok ==> i < i' <= |pattern| + 1
    ensures ok ==> Continue(result, Tokenize(Suffix(pattern, i)), rng, k)
                   == Continue(result', Tokenize(Suffix(pattern, i')), rng, k')
    ensures !ok ==> Tokenize(Suffix(pattern, i)) == None
  {
    if pattern[i] == '?' {
      if i + 1 < |pattern| {
        StepEscape(pattern, i);
        match ClassOf(pattern[i + 1])
        case None =>
          return false, i + 1, result, k;
        case Some(cls) =>
          Advance(result, Escape(cls), Tokenize(Suffix(pattern, i + 2)), rng, k);
          return true, i + 2, result + [Pick(cls, rng(k))], k + 1;
      } else {
        StepTrailing(pattern, i);
        Advance(result, Literal('?'), Tokenize(Suffix(pattern, i + 2)), rng, k);
        return true, i + 2, result + ['?'], k;
      }
    } else {
      StepLiteral(pattern, i);
      Advance(result, Literal(pattern[i]), Tokenize(Suffix(pattern, i + 1)), rng, k);
      return true, i + 1, result + [pattern[i]], k;
    }
  }

  /** Emitting the next piece `x` moves one character from the pieces still to
      fill to the result. */
  lemma Advance(result: string, x: Piece, rest: Option<seq<Piece>>, rng: Stream, k: nat)
    ensures Continue(result, Prepend(x, rest), rng, k)
            == Continue(result + [Emit(x, rng(k))], rest, rng, k + Cost(x))
  {
    if rest.Some? {
      var ps := rest.value;
      FillCons([x] + ps, rng, k);
      assert ([x] + ps)[0] == x && ([x] + ps)[1..] == ps;
      AppendAssoc(result, [Emit(x, rng(k))], Fill(ps, rng, k + Cost(x)));
    }
  }

  lemma FillCons(ps: seq<Piece>, rng: Stream, k: nat)
    requires ps != []
    ensures Fill(ps, rng, k) == [Emit(ps[0], rng(k))] + Fill(ps[1..], rng, k + Cost(ps[0]))
  {
  }

  lemma AppendAssoc(x: string, y: string, z: string)
    ensures x + (y + z) == (x + y) + z
  {
  }

  lemma StepLiteral(p: string, i: nat)
    requires i < |p| && p[i] != '?'
    ensures Tokenize(Suffix(p, i)) == Prepend(Literal(p[i]), Tokenize(Suffix(p, i + 1)))
  {
    assert p[i..][1..] == p[i + 1..];
  }

  lemma StepTrailing(p: string, i: nat)
    requires i == |p| - 1 && p[i] == '?'
    ensures Tokenize(Suffix(p, i)) == Prepend(Literal('?'), Tokenize(Suffix(p, i + 2)))
  {
    assert p[i..] == ['?'];
    assert [Literal('?')] + [] == [Literal('?')];
  }

  lemma StepEscape(p: string, i: nat)
    requires i + 1 < |p| && p[i] == '?'
    ensures ClassOf(p[i + 1]).None? ==> Tokenize(Suffix(p, i)) == None
    ensures ClassOf(p[i + 1]).Some? ==>
      Tokenize(Suffix(p, i)) == Prepend(Escape(ClassOf(p[i + 1]).value), Tokenize(Suffix(p, i + 2)))
  {
    assert p[i..][2..] == p[i + 2..];
    assert p[i..][1] == p[i + 1];
  }

  /** The pattern is rejected exactly when some `?` is followed by a byte other than d, l, u. */
  lemma {:induction false} TokenizeWellFormed(p: string)
    ensures Tokenize(p).Some? <==> WellFormed(p)
    decreases |p|
  {
    if |p| == 0 {
    } else if p[0] != '?' {
      TokenizeWellFormed(p[1..]);
      assert WellFormed(p) <==> WellFormed(p[1..]) by {
        if WellFormed(p[1..]) {
          forall i | 0 <= i < |p| - 1 && p[i] == '?'
            ensures ClassOf(p[i + 1]).Some?
          {
            assert p[1..][i - 1] == p[i];
          }
        }
      }
    } else if |p| == 1 {
    } else {
      match ClassOf(p[1])
      case None =>
        assert !WellFormed(p) by { assert p[0] == '?'; }
      case Some(cls) =>
        TokenizeWellFormed(p[2..]);
        assert WellFormed(p) <==> WellFormed(p[2..]) by {
          if WellFormed(p[2..]) {
            forall i | 0 <= i < |p| - 1 && p[i] == '?'
              ensures ClassOf(p[i + 1]).Some?
            {
              if i >= 2 {
                assert p[2..][i - 2] == p[i];
              }
            }
          }
          if WellFormed(p) {
            forall i | 0 <= i < |p[2..]| - 1 && p[2..][i] == '?'
              ensures ClassOf(p[2..][i + 1]).Some?
            {
              assert p[i + 2] == '?';
            }
          }
        }
    }
  }

  /** Tokenize reads the pattern exactly: the pieces spell it back, and a
      literal `?` can only be the last piece. */
  lemma {:induction false} TokenizeSpell(p: string)
    requires Tokenize(p).Some?
    ensures Spell(Tokenize(p).value) == p
    ensures Canonical(Tokenize(p).value)
    ensures |Tokenize(p).value| + Draws(Tokenize(p).value) == |p|
    decreases |p|
  {
    var ps := Tokenize(p).value;
    if |p| == 0 {
    } else if p[0] != '?' {
      TokenizeSpell(p[1..]);
      assert ps[1..] == Tokenize(p[1..]).value;
      assert p == [p[0]] + p[1..];
    } else if |p| == 1 {
      assert Spell(ps[1..]) == [];
    } else {
      TokenizeSpell(p[2..]);
      assert ps[1..] == Tokenize(p[2..]).value;
      assert p == ['?', p[1]] + p[2..];
      assert Letter(ps[0].cls) == p[1];
    }
  }

  /** Conversely every canonical piece sequence is what its own spelling splits into. */
  lemma {:induction false} SpellTokenize(ps: seq<Piece>)
    requires Canonical(ps)
    ensures Tokenize(Spell(ps)) == Some(ps)
  {
    if ps != [] {
      assert Canonical(ps[1..]) by {
        forall j | 0 <= j < |ps[1..]| - 1
          ensures ps[1..][j] != Literal('?')
        {
          assert ps[1..][j] == ps[j + 1];
        }
      }
      SpellTokenize(ps[1..]);
      var p := Spell(ps);
      match ps[0]
      case Literal(c) =>
        assert p[1..] == Spell(ps[1..]);
        if c == '?' {
          assert |ps| == 1;
          assert p == ['?'];
          assert ps == [Literal('?')];
        } else {
          assert [ps[0]] + ps[1..] == ps;
        }
      case Escape(cls) =>
        assert p[2..] == Spell(ps[1..]);
        assert ClassOf(p[1]) == Some(cls);
        assert [ps[0]] + ps[1..] == ps;
    }
  }

  /** Every expansion conforms to the pieces. */
  lemma {:induction false} FillConforms(ps: seq<Piece>, rng: Stream, k: nat)
    ensures Conforms(Fill(ps, rng, k), ps)
  {
    if ps != [] {
      var s := Fill(ps, rng, k);
      var k' := k + Cost(ps[0]);
      FillConforms(ps[1..], rng, k');
      assert s[1..] == Fill(ps[1..], rng, k');
      if ps[0].Escape? {
        PickInClass(ps[0].cls, rng(k));
      }
      forall j | 0 <= j < |ps|
        ensures match ps[j]
                case Literal(c) => s[j] == c
                case Escape(cls) => InClass(s[j], cls)
      {
        if j > 0 {
          assert s[j] == s[1..][j - 1] && ps[j] == ps[1..][j - 1];
        }
      }
    }
  }

  /** Filling reads only the draws from number `k` on. */
  lemma {:induction false} FillDependsOnLaterDraws(ps: seq<Piece>, rng1: Stream, rng2: Stream, k: nat)
    requires forall n: nat :: n >= k ==> rng1(n) == rng2(n)
    ensures Fill(ps, rng1, k) == Fill(ps, rng2, k)
  {
    if ps != [] {
      FillDependsOnLaterDraws(ps[1..], rng1, rng2, k + Cost(ps[0]));
    }
  }

  lemma ConformsTail(s: string, ps: seq<Piece>)
    requires Conforms(s, ps) && ps != []
    ensures Conforms(s[1..], ps[1..])
  {
    forall j | 0 <= j < |ps[1..]|
      ensures match ps[1..][j]
              case Literal(c) => s[1..][j] == c
              case Escape(cls) => InClass(s[1..][j], cls)
    {
      assert ps[1..][j] == ps[j + 1] && s[1..][j] == s[j + 1];
    }
  }

  /** An escape's character can be prescribed by the draw the escape consumes. */
  lemma EscapeReaches(ps: seq<Piece>, s: string, k: nat, tail: Stream)
    requires ps != [] && ps[0].Escape? && |s| == |ps| && InClass(s[0], ps[0].cls)
    requires Fill(ps[1..], tail, k + 1) == s[1..]
    ensures exists rng: Stream :: Fill(ps, rng, k) == s
  {
    var cls := ps[0].cls;
    var d: nat := s[0] as int - First(cls) as int;
    var rng := Redraw(tail, k, d);
    FillDependsOnLaterDraws(ps[1..], rng, tail, k + 1);
    PickReaches(cls, s[0]);
    FillFrom(ps, rng, k, s);
  }

  /** The draws `tail` with draw number `k` replaced by `d`. */
  function Redraw(tail: Stream, k: nat, d: nat): (rng: Stream)
    ensures rng(k) == d
    ensures forall n: nat :: n != k ==> rng(n) == tail(n)
  {
    n => if n == k then d else tail(n)
  }

  /** A string whose first character is the first piece's and whose rest is
      the rest's expansion is the expansion of all the pieces. */
  lemma FillFrom(ps: seq<Piece>, rng: Stream, k: nat, s: string)
    requires ps != [] && s != []
    requires Emit(ps[0], rng(k)) == s[0]
    requires Fill(ps[1..], rng, k + Cost(ps[0])) == s[1..]
    ensures Fill(ps, rng, k) == s
  {
    FillCons(ps, rng, k);
    assert s == [s[0]] + s[1..];
  }

  /** Every string that conforms to the pieces is the expansion of some draws. */
  lemma {:induction false} FillReaches(ps: seq<Piece>, s: string, k: nat)
    requires Conforms(s, ps)
    ensures exists rng: Stream :: Fill(ps, rng, k) == s
  {
    if ps == [] {
      var rng: Stream := n => 0;
      assert Fill(ps, rng, k) == s;
    } else {
      var k' := k + Cost(ps[0]);
      ConformsTail(s, ps);
      FillReaches(ps[1..], s[1..], k');
      var tail: Stream :| Fill(ps[1..], tail, k') == s[1..];
      if ps[0].Literal? {
        FillFrom(ps, tail, k, s);
      } else {
        assert InClass(s[0], ps[0].cls);
        EscapeReaches(ps, s, k, tail);
      }
    }
  }

  /** On success the output has one character per piece of the pattern: literal
      bytes in order, one class character per escape, and `|p|` minus the
      number of escapes characters in all. */
  lemma ExpandSound(p: string, rng: Stream)
    requires Expand(p, rng).Ok?
    ensures Tokenize(p).Some?
    ensures Spell(Tokenize(p).value) == p
    ensures Conforms(Expand(p, rng).value, Tokenize(p).value)
    ensures |Expand(p, rng).value| == |p| - Draws(Tokenize(p).value)
  {
    TokenizeSpell(p);
    FillConforms(Tokenize(p).value, rng, 0);
  }

  /** Every conforming string is a possible output: the expansion misses nothing. */
  lemma ExpandComplete(p: string, s: string)
    requires Tokenize(p).Some? && Conforms(s, Tokenize(p).value)
    ensures exists rng: Stream :: Expand(p, rng) == Ok(s)
  {
    FillReaches(Tokenize(p).value, s, 0);
    var rng: Stream :| Fill(Tokenize(p).value, rng, 0) == s;
    assert Expand(p, rng) == Ok(s);
  }

  /** `?d?d?d` always yields three digits. */
  lemma ThreeDigits(rng: Stream)
    ensures Expand("?d?d?d", rng).Ok?
    ensures |Expand("?d?d?d", rng).value| == 3
    ensures forall j :: 0 <= j < 3 ==> '0' <= Expand("?d?d?d", rng).value[j] <= '9'
  {
    var ps := [Escape(Digit), Escape(Digit), Escape(Digit)];
    assert Spell(ps) == "?d?d?d";
    SpellTokenize(ps);
    FillConforms(ps, rng, 0);
  }

  /** `?z` is rejected; a trailing `?` is copied. */
  lemma BadEscapeAndTrailingMark(rng: Stream)
    ensures Expand("?z", rng) == Err(InvalidPatternIdentifier)
    ensures Expand("ab?", rng) == Ok("ab?")
  {
    assert "?z"[1] == 'z';
    var ps := [Literal('a'), Literal('b'), Literal('?')];
    assert Spell(ps) == "ab?";
    SpellTokenize(ps);
  }
}
