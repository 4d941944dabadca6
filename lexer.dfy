/**
  The lexer (`lexFOL`, `lexID`, `lexNum`): one left-to-right pass over the characters.
  The source consumes a character array with `shift()` and pushes a character back with a
  spread; here each function takes the remaining characters and returns the unconsumed suffix.
 */
module Lexer {
  import opened Results
  import opened Text

  datatype Token =
    | FORALL | EXISTS
    | AND | OR | NOT | IMPLIES | IFF
    | LP | RP | COL
    | ID(name: string)
    | CONST(value: Number)

  /** The reserved words; `iff` is not among them. */
  const Keywords: map<string, Token> :=
    map["and" := AND, "or" := OR, "not" := NOT, "forall" := FORALL, "exists" := EXISTS]

  /** A letter followed by letters and digits. */
  predicate IsWord(w: string) {
    |w| > 0 && IsAlpha(w[0]) && forall i :: 0 <= i < |w| ==> IsAlphaNumeric(w[i])
  }

  /** The token a maximal word becomes. */
  function WordToken(w: string): Token {
    if w in Keywords then Keywords[w] else ID(w)
  }

  /** What the lexer can emit: never IFF, and ID only for a word that is not reserved. */
  predicate IsLexedToken(t: Token) {
    match t
    case IFF => false
    case ID(name) => IsWord(name) && name !in Keywords
    case _ => true
  }

  /** The chain of reserved-word tests applied to a lexed word: it agrees with the table. */
  function ClassifyWord(id: string): (t: Token)
    ensures t == WordToken(id)
    ensures IsWord(id) ==> IsLexedToken(t)
  {
    if id == "and" then AND
    else if id == "or" then OR
    else if id == "not" then NOT
    else if id == "forall" then FORALL
    else if id == "exists" then EXISTS
    else ID(id)
  }

  predicate AllLexed(ts: seq<Token>) {
    forall i :: 0 <= i < |ts| ==> IsLexedToken(ts[i])
  }

  /** `[t, ...ts]`, with a thrown error passed on. */
  function Prepend(t: Token, r: Result<seq<Token>>): (r': Result<seq<Token>>)
    ensures r'.Ok? <==> r.Ok?
    ensures IsLexedToken(t) && r.Ok? && AllLexed(r.value) ==> AllLexed(r'.value)
  {
    match r
    case Ok(ts) => Ok([t] + ts)
    case Fail => Fail
  }

  /** Lexing two texts one after the other: both must succeed. */
  function Concat(r1: Result<seq<Token>>, r2: Result<seq<Token>>): Result<seq<Token>> {
    match r1
    case Fail => Fail
    case Ok(ts1) =>
      match r2
      case Fail => Fail
      case Ok(ts2) => Ok(ts1 + ts2)
  }

  /**
    `lexID`: appends to `curr` the maximal run of letters and digits at the front of `lc`,
    and returns what follows the run.
   */
  function LexId(lc: seq<char>, curr: string): (r: (seq<char>, string))
    ensures |r.0| <= |lc| && r.0 == lc[|lc| - |r.0|..]
    ensures r.1 == curr + lc[..|lc| - |r.0|]
    ensures forall i :: 0 <= i < |lc| - |r.0| ==> IsAlphaNumeric(lc[i])
    ensures r.0 == [] || !IsAlphaNumeric(r.0[0])
    decreases |lc|
  {
    if |lc| == 0 || !IsAlphaNumeric(lc[0]) then
      NoRun(lc, curr);
      (lc, curr)
    else
      var r := LexId(lc[1..], curr + [lc[0]]);
      RunStep(lc, curr, r);
      r
  }

  /** Nothing consumed: the remainder is all of `lc` and `curr` is unchanged. */
  lemma NoRun(lc: seq<char>, curr: string)
    ensures lc == lc[|lc| - |lc|..] && curr == curr + lc[..|lc| - |lc|]
  {
    assert lc[..0] == [];
  }

  /** A run found after the first character of `lc` extends, with that character, to a run of `lc`. */
  lemma RunStep(lc: seq<char>, curr: string, r: (seq<char>, string))
    requires |lc| > 0 && IsAlphaNumeric(lc[0])
    requires |r.0| <= |lc[1..]| && r.0 == lc[1..][|lc[1..]| - |r.0|..]
    requires r.1 == (curr + [lc[0]]) + lc[1..][..|lc[1..]| - |r.0|]
    requires forall i :: 0 <= i < |lc[1..]| - |r.0| ==> IsAlphaNumeric(lc[1..][i])
    ensures |r.0| < |lc| && r.0 == lc[|lc| - |r.0|..]
    ensures r.1 == curr + lc[..|lc| - |r.0|]
    ensures forall i :: 0 <= i < |lc| - |r.0| ==> IsAlphaNumeric(lc[i])
  {
    var rest, k := lc[1..], |lc| - |r.0|;
    assert rest[k - 1..] == lc[k..];
    assert lc[..k] == [lc[0]] + rest[..k - 1];
    forall i | 0 < i < k
      ensures IsAlphaNumeric(lc[i])
    {
      assert lc[i] == rest[i - 1];
    }
  }

  /**
    `lexNum`: when `lc` starts with a digit, that digit and then the maximal run of letters
    and digits after it join `curr`; otherwise nothing is consumed.
   */
  function LexNum(lc: seq<char>, curr: string): (r: (seq<char>, string))
    ensures |r.0| <= |lc| && r.0 == lc[|lc| - |r.0|..]
    ensures r.1 == curr + lc[..|lc| - |r.0|]
    ensures |r.0| == |lc| <==> lc == [] || !IsNumeric(lc[0])
    ensures |r.0| < |lc| ==> forall i :: 0 <= i < |lc| - |r.0| ==> IsAlphaNumeric(lc[i])
    ensures |r.0| < |lc| ==> r.0 == [] || !IsAlphaNumeric(r.0[0])
  {
    if |lc| == 0 || !IsNumeric(lc[0]) then
      NoRun(lc, curr);
      (lc, curr)
    else
      var r := LexId(lc[1..], curr + [lc[0]]);
      RunStep(lc, curr, r);
      r
  }

  /** `lexFOL`: the token sequence of `lc`, or `Fail` where the source throws. */
  function Lex(lc: seq<char>): (r: Result<seq<Token>>)
    ensures r.Ok? ==> AllLexed(r.value)
    decreases |lc|
  {
    if |lc| == 0 then Ok([])
    else
      var c := lc[0];
      var rest := lc[1..];
      if c == '-' then
        if |rest| > 0 && rest[0] == '>' then Prepend(IMPLIES, Lex(rest[1..])) else Fail
      else if c == ':' then Prepend(COL, Lex(rest))
      else if c == '(' then Prepend(LP, Lex(rest))
      else if c == ')' then Prepend(RP, Lex(rest))
      else if IsAlpha(c) then
        var word := LexId(rest, [c]);
        assert IsWord(word.1) by {
          assert forall i :: 1 <= i < |word.1| ==> word.1[i] == rest[i - 1];
        }
        Prepend(ClassifyWord(word.1), Lex(word.0))
      else if IsNumeric(c) then
        var numeral := LexNum(rest, [c]);
        NumeralOfLexNum(rest, c);
        Prepend(CONST(NumberOf(numeral.1)), Lex(numeral.0))
      else if IsWhiteSpace(c) then Lex(rest)
      else Fail
  }

  /**
    Position `i` of `s` is acceptable to the lexer: a letter, a digit, a space, `(`, `)`, `:`,
    a `-` immediately followed by `>`, or a `>` immediately preceded by `-`.
   */
  predicate CharOk(s: string, i: int)
    requires 0 <= i < |s|
  {
    || IsAlphaNumeric(s[i]) || IsWhiteSpace(s[i]) || s[i] == '(' || s[i] == ')' || s[i] == ':'
    || (s[i] == '-' && i + 1 < |s| && s[i + 1] == '>')
    || (s[i] == '>' && 0 < i && s[i - 1] == '-')
  }

  predicate Lexable(s: string) {
    forall i :: 0 <= i < |s| ==> CharOk(s, i)
  }

  lemma LexableSplit(s: string, k: nat)
    requires 0 < k <= |s| && s[k - 1] != '-'
    ensures Lexable(s) <==> (forall i :: 0 <= i < k ==> CharOk(s, i)) && Lexable(s[k..])
  {
    forall j | 0 <= j < |s| - k
      ensures CharOk(s[k..], j) <==> CharOk(s, k + j)
    {
    }
    if (forall i :: 0 <= i < k ==> CharOk(s, i)) && Lexable(s[k..]) {
      forall i | 0 <= i < |s|
        ensures CharOk(s, i)
      {
        if i >= k {
          assert CharOk(s[k..], i - k);
        }
      }
    }
  }

  /** A text that starts with a run of letters and digits is acceptable when what follows the run is. */
  lemma LexableAfterRun(s: string, k: nat)
    requires 0 < k <= |s|
    requires forall i :: 0 <= i < k ==> IsAlphaNumeric(s[i])
    ensures Lexable(s) <==> Lexable(s[k..])
  {
    LexableSplit(s, k);
  }

  lemma ShiftRun(s: string, m: nat)
    requires m < |s| && IsAlphaNumeric(s[0])
    requires forall i :: 0 <= i < m ==> IsAlphaNumeric(s[1..][i])
    ensures forall i :: 0 <= i < m + 1 ==> IsAlphaNumeric(s[i])
  {
    forall i | 0 < i < m + 1
      ensures IsAlphaNumeric(s[i])
    {
      assert s[i] == s[1..][i - 1];
    }
  }

  /** What `lexID` leaves after the first letter of `s` is a suffix of `s` after a run of letters and digits. */
  lemma LetterRun(s: string) returns (k: nat)
    requires |s| > 0 && IsAlphaNumeric(s[0])
    ensures 0 < k <= |s| && LexId(s[1..], [s[0]]).0 == s[k..]
    ensures forall i :: 0 <= i < k ==> IsAlphaNumeric(s[i])
  {
    var r := LexId(s[1..], [s[0]]);
    k := |s| - |r.0|;
    assert s[1..][|s| - 1 - |r.0|..] == s[k..];
    ShiftRun(s, k - 1);
  }

  /** What `lexNum` leaves after the first digit of `s` is a suffix of `s` after a run of letters and digits. */
  lemma DigitRunLeft(s: string) returns (k: nat)
    requires |s| > 0 && IsAlphaNumeric(s[0])
    ensures 0 < k <= |s| && LexNum(s[1..], [s[0]]).0 == s[k..]
    ensures forall i :: 0 <= i < k ==> IsAlphaNumeric(s[i])
  {
    var r := LexNum(s[1..], [s[0]]);
    k := |s| - |r.0|;
    assert s[1..][|s| - 1 - |r.0|..] == s[k..];
    ShiftRun(s, k - 1);
  }

  /** The lexer fails exactly on a text with a character it does not accept. */
  lemma {:induction false} LexSucceedsIff(s: string)
    ensures Lex(s).Ok? <==> Lexable(s)
    decreases |s|
  {
    if |s| == 0 {
      return;
    }
    var c := s[0];
    if c == '-' {
      if |s| > 1 && s[1] == '>' {
        assert s[1..][1..] == s[2..];
        LexSucceedsIff(s[2..]);
        LexableSplit(s, 2);
      } else {
        assert !CharOk(s, 0);
      }
    } else if c == ':' || c == '(' || c == ')' {
      LexSucceedsIff(s[1..]);
      LexableSplit(s, 1);
    } else if IsAlpha(c) {
      var k := LetterRun(s);
      LexSucceedsIff(s[k..]);
      LexableAfterRun(s, k);
      LexLetterStep(s);
    } else if IsNumeric(c) {
      var k := DigitRunLeft(s);
      LexSucceedsIff(s[k..]);
      LexableAfterRun(s, k);
      LexDigitStep(s);
    } else if IsWhiteSpace(c) {
      LexSucceedsIff(s[1..]);
      LexableSplit(s, 1);
    } else {
      assert !CharOk(s, 0);
    }
  }

  lemma {:induction false} LexIdAppend(x: seq<char>, curr: string, b: seq<char>)
    requires |b| > 0 && !IsAlphaNumeric(b[0])
    ensures LexId(x + b, curr) == (LexId(x, curr).0 + b, LexId(x, curr).1)
    decreases |x|
  {
    if |x| == 0 {
      assert x + b == b;
    } else {
      assert (x + b)[1..] == x[1..] + b;
      if IsAlphaNumeric(x[0]) {
        LexIdAppend(x[1..], curr + [x[0]], b);
      }
    }
  }

  lemma LexNumAppend(x: seq<char>, curr: string, b: seq<char>)
    requires |b| > 0 && !IsAlphaNumeric(b[0])
    ensures LexNum(x + b, curr) == (LexNum(x, curr).0 + b, LexNum(x, curr).1)
  {
    if |x| == 0 {
      assert x + b == b;
    } else {
      assert (x + b)[1..] == x[1..] + b;
      if IsNumeric(x[0]) {
        LexIdAppend(x[1..], curr + [x[0]], b);
      }
    }
  }

  /** One step of `lexFOL` on a text that starts with a letter. */
  lemma LexLetterStep(s: string)
    requires |s| > 0 && IsAlpha(s[0])
    ensures Lex(s) == Prepend(ClassifyWord(LexId(s[1..], [s[0]]).1), Lex(LexId(s[1..], [s[0]]).0))
  {
    assert s[0] != '-' && s[0] != ':' && s[0] != '(' && s[0] != ')';
  }

  /** What `lexNum` gathers after a first digit is a numeral lexeme. */
  lemma NumeralOfLexNum(lc: seq<char>, c: char)
    requires IsNumeric(c)
    ensures IsNumeralLexeme(LexNum(lc, [c]).1)
  {
    var r := LexNum(lc, [c]);
    var k := |lc| - |r.0|;
    assert r.1 == [c] + lc[..k];
    forall i | 0 < i < |r.1|
      ensures IsAlphaNumeric(r.1[i])
    {
      assert r.1[i] == lc[i - 1];
    }
  }

  /** One step of `lexFOL` on a text that starts with a digit. */
  lemma LexDigitStep(s: string)
    requires |s| > 0 && IsNumeric(s[0])
    ensures IsNumeralLexeme(LexNum(s[1..], [s[0]]).1)
    ensures Lex(s) == Prepend(CONST(NumberOf(LexNum(s[1..], [s[0]]).1)), Lex(LexNum(s[1..], [s[0]]).0))
  {
    NumeralOfLexNum(s[1..], s[0]);
    assert s[0] != '-' && s[0] != ':' && s[0] != '(' && s[0] != ')' && !IsAlpha(s[0]);
  }

  /** One step of `lexFOL` on a text that starts with a space. */
  lemma LexSpaceStep(s: string)
    requires |s| > 0 && IsWhiteSpace(s[0])
    ensures Lex(s) == Lex(s[1..])
  {
    assert s[0] != '-' && s[0] != ':' && s[0] != '(' && s[0] != ')' && !IsAlpha(s[0]) && !IsNumeric(s[0]);
  }

  lemma PrependConcat(t: Token, r1: Result<seq<Token>>, r2: Result<seq<Token>>)
    ensures Prepend(t, Concat(r1, r2)) == Concat(Prepend(t, r1), r2)
  {
    if r1.Ok? && r2.Ok? {
      assert [t] + (r1.value + r2.value) == ([t] + r1.value) + r2.value;
    }
  }

  /** If `ab` and `a` both start with `t` and the rests concatenate, so do `ab` and `a`. */
  lemma PrependBoth(t: Token, ab: Result<seq<Token>>, a: Result<seq<Token>>, b: Result<seq<Token>>,
                    restB: Result<seq<Token>>, rest: Result<seq<Token>>)
    requires ab == Prepend(t, restB) && a == Prepend(t, rest) && restB == Concat(rest, b)
    ensures ab == Concat(a, b)
  {
    PrependConcat(t, rest, b);
  }

  /** A space separates: lexing `a` followed by a space and more text lexes `a`, then the rest. */
  lemma {:induction false} LexAppend(a: string, b: string)
    requires |b| > 0 && IsWhiteSpace(b[0])
    ensures Lex(a + b) == Concat(Lex(a), Lex(b))
    decreases |a|
  {
    if |a| == 0 {
      assert a + b == b;
      if Lex(b).Ok? {
        assert [] + Lex(b).value == Lex(b).value;
      }
      return;
    }
    var c := a[0];
    assert (a + b)[0] == c && (a + b)[1..] == a[1..] + b;
    if c == '-' {
      if |a| > 1 && a[1] == '>' {
        assert (a + b)[1..][1..] == a[2..] + b;
        assert a[1..][1..] == a[2..];
        LexAppend(a[2..], b);
        PrependConcat(IMPLIES, Lex(a[2..]), Lex(b));
      } else if |a| == 1 {
        assert (a + b)[1] == b[0];
      }
    } else if c == ':' || c == '(' || c == ')' {
      LexAppend(a[1..], b);
      PrependConcat(if c == ':' then COL else if c == '(' then LP else RP, Lex(a[1..]), Lex(b));
    } else if IsWhiteSpace(c) {
      LexAppend(a[1..], b);
      LexSpaceStep(a);
      LexSpaceStep(a + b);
    } else if IsAlpha(c) {
      var r := LexId(a[1..], [c]);
      LexAppend(r.0, b);
      LexAppendLetter(a, b, r.0, r.1);
    } else if IsNumeric(c) {
      var r := LexNum(a[1..], [c]);
      LexAppend(r.0, b);
      LexAppendDigit(a, b, r.0, r.1);
    }
  }

  /** The step of `LexAppend` for a text that starts with a letter, given the rest of the text. */
  lemma LexAppendLetter(a: string, b: string, rest: string, id: string)
    requires |a| > 0 && IsAlpha(a[0]) && |b| > 0 && IsWhiteSpace(b[0])
    requires LexId(a[1..], [a[0]]) == (rest, id)
    requires Lex(rest + b) == Concat(Lex(rest), Lex(b))
    ensures Lex(a + b) == Concat(Lex(a), Lex(b))
  {
    var t := ClassifyWord(id);
    assert Lex(a + b) == Prepend(t, Lex(rest + b)) by {
      LexIdAfterFirst(a, b);
      LexLetterStep(a + b);
    }
    assert Lex(a) == Prepend(t, Lex(rest)) by {
      LexLetterStep(a);
    }
    PrependBoth(t, Lex(a + b), Lex(a), Lex(b), Lex(rest + b), Lex(rest));
  }

  /** The step of `LexAppend` for a text that starts with a digit, given the rest of the text. */
  lemma LexAppendDigit(a: string, b: string, rest: string, num: string)
    requires |a| > 0 && IsNumeric(a[0]) && |b| > 0 && IsWhiteSpace(b[0])
    requires LexNum(a[1..], [a[0]]) == (rest, num)
    requires Lex(rest + b) == Concat(Lex(rest), Lex(b))
    ensures Lex(a + b) == Concat(Lex(a), Lex(b))
  {
    NumeralOfLexNum(a[1..], a[0]);
    var t := CONST(NumberOf(num));
    assert Lex(a + b) == Prepend(t, Lex(rest + b)) by {
      LexNumAfterFirst(a, b);
      LexDigitStep(a + b);
    }
    assert Lex(a) == Prepend(t, Lex(rest)) by {
      LexDigitStep(a);
    }
    PrependBoth(t, Lex(a + b), Lex(a), Lex(b), Lex(rest + b), Lex(rest));
  }

  lemma LexIdAfterFirst(a: string, b: string)
    requires |a| > 0 && |b| > 0 && !IsAlphaNumeric(b[0])
    ensures LexId((a + b)[1..], [(a + b)[0]]) == (LexId(a[1..], [a[0]]).0 + b, LexId(a[1..], [a[0]]).1)
  {
    assert (a + b)[0] == a[0] && (a + b)[1..] == a[1..] + b;
    LexIdAppend(a[1..], [a[0]], b);
  }

  lemma LexNumAfterFirst(a: string, b: string)
    requires |a| > 0 && |b| > 0 && !IsAlphaNumeric(b[0])
    ensures LexNum((a + b)[1..], [(a + b)[0]]) == (LexNum(a[1..], [a[0]]).0 + b, LexNum(a[1..], [a[0]]).1)
  {
    assert (a + b)[0] == a[0] && (a + b)[1..] == a[1..] + b;
    LexNumAppend(a[1..], [a[0]], b);
  }

  /** On a text of letters and digits `lexID` consumes everything. */
  lemma LexIdAll(x: seq<char>, curr: string)
    requires forall i :: 0 <= i < |x| ==> IsAlphaNumeric(x[i])
    ensures LexId(x, curr) == ([], curr + x)
  {
    var r := LexId(x, curr);
    assert x[..|x|] == x;
  }

  /** The run `lexID` takes from `x + rest`, where `rest` cannot continue it, is all of `x`. */
  lemma LexIdRun(x: seq<char>, curr: string, rest: seq<char>)
    requires forall i :: 0 <= i < |x| ==> IsAlphaNumeric(x[i])
    requires rest == [] || !IsAlphaNumeric(rest[0])
    ensures LexId(x + rest, curr) == (rest, curr + x)
  {
    if rest == [] {
      LexIdAll(x, curr);
      assert x + rest == x;
    } else {
      LexIdStop(x, curr, rest);
    }
  }

  lemma LexIdStop(x: seq<char>, curr: string, rest: seq<char>)
    requires forall i :: 0 <= i < |x| ==> IsAlphaNumeric(x[i])
    requires |rest| > 0 && !IsAlphaNumeric(rest[0])
    ensures LexId(x + rest, curr) == (rest, curr + x)
  {
    LexIdAppend(x, curr, rest);
    LexIdAll(x, curr);
    var empty: seq<char> := [];
    assert empty + rest == rest;
  }

  /** A letter starts a maximal word, which becomes a reserved-word token or an ID. */
  lemma LexWord(w: string, rest: string)
    requires IsWord(w)
    requires rest == [] || !IsAlphaNumeric(rest[0])
    ensures Lex(w + rest) == Prepend(WordToken(w), Lex(rest))
  {
    var s := w + rest;
    LexWordRun(w, rest);
    LexLetterStep(s);
  }

  /** On `w + rest`, after the first letter, `lexID` takes the rest of `w` and stops. */
  lemma LexWordRun(w: string, rest: string)
    requires IsWord(w)
    requires rest == [] || !IsAlphaNumeric(rest[0])
    ensures |w + rest| > 0 && (w + rest)[0] == w[0] && IsAlpha((w + rest)[0])
    ensures LexId((w + rest)[1..], [(w + rest)[0]]) == (rest, w)
  {
    var s := w + rest;
    assert s[0] == w[0] && s[1..] == w[1..] + rest;
    LexIdRun(w[1..], [w[0]], rest);
    assert [w[0]] + w[1..] == w;
  }

  /** The characters `lexNum` takes after the first digit of `n + rest` are the rest of `n`. */
  lemma LexNumRun(n: string, rest: string)
    requires IsNumeralLexeme(n)
    requires |n| == 1 ==> rest == [] || !IsNumeric(rest[0])
    requires |n| > 1 ==> rest == [] || !IsAlphaNumeric(rest[0])
    ensures LexNum(n[1..] + rest, [n[0]]) == (rest, n)
  {
    if |n| == 1 {
      assert n[1..] + rest == rest;
      assert [n[0]] == n;
    } else {
      var lc := n[1..] + rest;
      assert lc[0] == n[1] && lc[1..] == n[2..] + rest;
      LexIdRun(n[2..], [n[0]] + [n[1]], rest);
      assert [n[0]] + [n[1]] + n[2..] == n;
    }
  }

  /**
    A digit not followed by a digit is a numeral on its own; two leading digits make the numeral
    run on through every following letter and digit.
   */
  lemma LexNumeral(n: string, rest: string)
    requires IsNumeralLexeme(n)
    requires |n| == 1 ==> rest == [] || !IsNumeric(rest[0])
    requires |n| > 1 ==> rest == [] || !IsAlphaNumeric(rest[0])
    ensures Lex(n + rest) == Prepend(CONST(NumberOf(n)), Lex(rest))
  {
    LexNumeralRun(n, rest);
    LexDigitStep(n + rest);
  }

  /** On `n + rest`, after the first digit, `lexNum` takes the rest of `n` and stops. */
  lemma LexNumeralRun(n: string, rest: string)
    requires IsNumeralLexeme(n)
    requires |n| == 1 ==> rest == [] || !IsNumeric(rest[0])
    requires |n| > 1 ==> rest == [] || !IsAlphaNumeric(rest[0])
    ensures |n + rest| > 0 && IsNumeric((n + rest)[0])
    ensures LexNum((n + rest)[1..], [(n + rest)[0]]) == (rest, n)
  {
    var s := n + rest;
    assert s[0] == n[0] && s[1..] == n[1..] + rest;
    LexNumRun(n, rest);
  }

  /** `iff` is not reserved: it lexes as an identifier. */
  lemma IffIsAnIdentifier()
    ensures Lex("iff") == Ok([ID("iff")])
  {
    LexWordText("iff");
  }

  /** `12x` is one numeral whose value is NaN. */
  lemma NumeralRunsThroughLetters()
    ensures Lex("12x") == Ok([CONST(NaN)])
  {
    var n := "12x";
    LoneNumeral(n, "12x");
    assert IsAlpha(n[2]) && n[2] != 'e' && n[2] != 'E';
  }

  /**
    A numeral lexeme on its own lexes to one constant, its `Number()` value. The text `s` is
    passed separately from `n` so that a caller's literal text is not unfolded character by
    character.
   */
  lemma LoneNumeral(n: string, s: string)
    requires IsNumeralLexeme(n) && s == n
    ensures Lex(s) == Ok([CONST(NumberOf(n))])
  {
    LexNumeral(n, []);
    assert n + [] == n;
    assert Lex([]) == Ok([]);
    var none: seq<Token> := [];
    assert [CONST(NumberOf(n))] + none == [CONST(NumberOf(n))];
  }

  /** `1x` is the numeral 1 and then the identifier `x`. */
  lemma SingleDigitNumeral()
    ensures Lex("1x") == Ok([CONST(Num(1)), ID("x")])
  {
    NumeralThenWord("1", "x", "1x");
    assert NumberOf("1") == Num(1);
  }

  /**
    A one-digit numeral directly followed by a word lexes as two tokens. The whole text `s` is
    passed separately so that a caller's literal text is not unfolded character by character.
   */
  lemma NumeralThenWord(n: string, w: string, s: string)
    requires |n| == 1 && IsNumeric(n[0]) && IsWord(w) && s == n + w
    ensures Lex(s) == Ok([CONST(NumberOf(n)), WordToken(w)])
  {
    assert IsNumeralLexeme(n) && !IsNumeric(w[0]);
    LexNumeral(n, w);
    LexWordText(w);
    assert [CONST(NumberOf(n))] + [WordToken(w)] == [CONST(NumberOf(n)), WordToken(w)];
  }

  /** A `-` must be followed at once by `>`, and `&` is no character of the language. */
  lemma LexRejects()
    ensures Lex("A -").Fail?
    ensures Lex("A - B").Fail?
    ensures Lex("A & B").Fail?
  {
    LexSucceedsIff("A -");
    assert !CharOk("A -", 2);
    LexSucceedsIff("A - B");
    assert !CharOk("A - B", 2);
    LexSucceedsIff("A & B");
    assert !CharOk("A & B", 2);
  }

  /** `Number()` reads `12e3` in exponent notation. */
  lemma ExponentNumeral()
    ensures Lex("12e3") == Ok([CONST(Num(12000))])
  {
    var n := "12e3";
    LoneNumeral(n, "12e3");
    assert n[..2] == "12" && n[3..] == "3";
    assert DecimalValue("12") == 12 by {
      assert "12"[..1] == "1";
      assert "1"[..0] == [];
    }
    assert DecimalValue("3") == 3 by {
      assert "3"[..0] == [];
    }
    assert ExponentAt(n, 2);
    assert ExponentValue(n, 2) == 12000 by {
      assert Pow10(3) == 1000;
    }
  }

  /** The text of a token in the source's own syntax. */
  function TokenText(t: Token): string {
    match t
    case FORALL => "forall"
    case EXISTS => "exists"
    case AND => "and"
    case OR => "or"
    case NOT => "not"
    case IMPLIES => "->"
    case IFF => "iff"
    case LP => "("
    case RP => ")"
    case COL => ":"
    case ID(name) => name
    case CONST(v) => NumberToString(v)
  }

  /** A token that its own text lexes back to: a lexed token other than a NaN numeral. */
  predicate IsPrintable(t: Token) {
    IsLexedToken(t) && !(t.CONST? && t.value.NaN?)
  }

  /** The tokens' texts separated by single spaces. */
  function Unlex(ts: seq<Token>): string
    decreases |ts|
  {
    if |ts| == 0 then ""
    else if |ts| == 1 then TokenText(ts[0])
    else TokenText(ts[0]) + " " + Unlex(ts[1..])
  }

  lemma LexTokenText(t: Token)
    requires IsPrintable(t)
    ensures Lex(TokenText(t)) == Ok([t])
  {
    match t
    case ID(name) =>
      LexWordText(name);
    case CONST(v) =>
      LexNumberText(v);
    case IMPLIES =>
      assert Lex([]) == Ok([]);
      assert TokenText(t)[1..][1..] == [];
      var none: seq<Token> := [];
      assert [t] + none == [t];
    case LP =>
      LexSymbolText(t);
    case RP =>
      LexSymbolText(t);
    case COL =>
      LexSymbolText(t);
    case FORALL | EXISTS | AND | OR | NOT =>
      LexWordText(TokenText(t));
    case IFF =>
  }

  lemma LexSymbolText(t: Token)
    requires t == LP || t == RP || t == COL
    ensures Lex(TokenText(t)) == Ok([t])
  {
    assert Lex([]) == Ok([]);
    assert TokenText(t)[1..] == [];
    var none: seq<Token> := [];
    assert [t] + none == [t];
  }

  /** A word on its own lexes to its token. */
  lemma LexWordText(w: string)
    requires IsWord(w)
    ensures Lex(w) == Ok([WordToken(w)])
  {
    assert w + [] == w;
    LexWord(w, []);
    assert Lex([]) == Ok([]);
    var none: seq<Token> := [];
    assert [WordToken(w)] + none == [WordToken(w)];
  }

  /** The decimal text of a number lexes to that number. */
  lemma LexNumberText(v: Number)
    requires v.Num?
    ensures Lex(NumberToString(v)) == Ok([CONST(v)])
  {
    var s := NumberToString(v);
    assert IsNumeralLexeme(s);
    assert s + [] == s;
    LexNumeral(s, []);
    assert NumberOf(s) == v;
    assert Lex([]) == Ok([]);
    var none: seq<Token> := [];
    assert [CONST(v)] + none == [CONST(v)];
  }

  /** Lexing undoes `Unlex` on printable tokens. */
  lemma {:induction false} LexUnlex(ts: seq<Token>)
    requires forall i :: 0 <= i < |ts| ==> IsPrintable(ts[i])
    ensures Lex(Unlex(ts)) == Ok(ts)
    decreases |ts|
  {
    if |ts| == 0 {
    } else if |ts| == 1 {
      LexTokenText(ts[0]);
      assert [ts[0]] == ts;
    } else {
      LexUnlex(ts[1..]);
      LexUnlexCons(ts[0], ts[1..]);
      assert [ts[0]] + ts[1..] == ts;
    }
  }

  lemma UnlexCons(t: Token, rest: seq<Token>)
    requires |rest| > 0
    ensures Unlex([t] + rest) == TokenText(t) + " " + Unlex(rest)
  {
    assert ([t] + rest)[1..] == rest;
  }

  /** The step of `LexUnlex`: one more printable token in front. */
  lemma LexUnlexCons(t: Token, rest: seq<Token>)
    requires IsPrintable(t) && |rest| > 0
    requires Lex(Unlex(rest)) == Ok(rest)
    ensures Lex(Unlex([t] + rest)) == Ok([t] + rest)
  {
    var u := Unlex(rest);
    var w := TokenText(t);
    assert Unlex([t] + rest) == w + (" " + u) by {
      UnlexCons(t, rest);
      AppendAssoc(w, " ", u);
    }
    assert Lex(" " + u) == Ok(rest) by {
      LexSpaceStep(" " + u);
      assert (" " + u)[1..] == u;
    }
    assert Lex(w) == Ok([t]) by {
      LexTokenText(t);
    }
    LexAppend(w, " " + u);
  }
}
