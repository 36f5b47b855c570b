/**
 * The Python string primitives the bill parser is built from:
 * `str.split()` with no separator, `" ".join`, `str.strip()`, `str.lower()`
 * and `str.splitlines()`.  Strings are sequences of code points.
 */
module PyText {

  /** The characters Python's `str.isspace()` accepts; `split()` and `strip()`
      without arguments use exactly this set. */
  predicate IsSpace(c: char) {
    var n := c as int;
    || (0x09 <= n <= 0x0D)
    || (0x1C <= n <= 0x20)
    || n == 0x85 || n == 0xA0 || n == 0x1680
    || (0x2000 <= n <= 0x200A)
    || n == 0x2028 || n == 0x2029 || n == 0x202F || n == 0x205F || n == 0x3000
  }

  predicate NoSpace(s: string) {
    forall i :: 0 <= i < |s| ==> !IsSpace(s[i])
  }

  predicate AllSpace(s: string) {
    forall i :: 0 <= i < |s| ==> IsSpace(s[i])
  }

  /** A token as `str.split()` produces it: non-empty and free of whitespace. */
  predicate IsWord(w: string) {
    w != [] && NoSpace(w)
  }

  predicate AllWords(ws: seq<string>) {
    forall i :: 0 <= i < |ws| ==> IsWord(ws[i])
  }

  /** Two spaces in a row start at index `i`. */
  predicate DoubleSpaceAt(s: string, i: int)
    requires 0 <= i < |s| - 1
  {
    s[i] == ' ' && s[i + 1] == ' '
  }

  /** Non-empty, no whitespace other than the plain space, no space at either
      end and never two spaces in a row: the shape of `" ".join(tokens)`. */
  predicate SingleSpaced(s: string) {
    && s != []
    && s[0] != ' '
    && s[|s| - 1] != ' '
    && (forall i :: 0 <= i < |s| && IsSpace(s[i]) ==> s[i] == ' ')
    && (forall i :: 0 <= i < |s| - 1 ==> !DoubleSpaceAt(s, i))
  }

  /** The non-whitespace characters of `s`, in order. */
  function RemoveSpace(s: string): string {
    if s == [] then []
    else (if IsSpace(s[0]) then [] else [s[0]]) + RemoveSpace(s[1..])
  }

  function Concat(ws: seq<string>): string {
    if ws == [] then [] else ws[0] + Concat(ws[1..])
  }

  lemma {:induction false} RemoveSpaceAppend(a: string, b: string)
    ensures RemoveSpace(a + b) == RemoveSpace(a) + RemoveSpace(b)
    decreases |a|
  {
    if a == [] {
      assert a + b == b;
    } else {
      assert (a + b)[0] == a[0];
      assert (a + b)[1..] == a[1..] + b;
      RemoveSpaceAppend(a[1..], b);
    }
  }

  lemma {:induction false} RemoveSpaceOfNoSpace(s: string)
    requires NoSpace(s)
    ensures RemoveSpace(s) == s
    decreases |s|
  {
    if s != [] {
      RemoveSpaceOfNoSpace(s[1..]);
    }
  }

  lemma {:induction false} RemoveSpaceOfAllSpace(s: string)
    requires AllSpace(s)
    ensures RemoveSpace(s) == []
    decreases |s|
  {
    if s != [] {
      RemoveSpaceOfAllSpace(s[1..]);
    }
  }

  // ---------------------------------------------------------------------
  // str.split()
  // ---------------------------------------------------------------------

  /** Length of the longest whitespace-free prefix of `s`. */
  function WordLen(s: string): (n: nat)
    ensures n <= |s|
    ensures NoSpace(s[..n])
    ensures n < |s| ==> IsSpace(s[n])
  {
    if s == [] || IsSpace(s[0]) then 0
    else
      var n := 1 + WordLen(s[1..]);
      assert s[..n] == [s[0]] + s[1..][..n - 1];
      n
  }

  /** `s.split()`: the maximal whitespace-free runs of `s`, in order.  Every
      token is non-empty and whitespace-free, and together they hold exactly
      the non-whitespace characters of `s`. */
  function Split(s: string): (ws: seq<string>)
    ensures AllWords(ws)
    ensures Concat(ws) == RemoveSpace(s)
    decreases |s|
  {
    if s == [] then []
    else if IsSpace(s[0]) then
      assert RemoveSpace(s) == RemoveSpace(s[1..]);
      Split(s[1..])
    else
      var n := WordLen(s);
      var rest := Split(s[n..]);
      assert s == s[..n] + s[n..];
      RemoveSpaceAppend(s[..n], s[n..]);
      RemoveSpaceOfNoSpace(s[..n]);
      [s[..n]] + rest
  }

  /** A word, a space and a single-spaced string make a single-spaced string. */
  lemma ConsSingleSpaced(w: string, tail: string)
    requires IsWord(w)
    requires SingleSpaced(tail)
    ensures SingleSpaced(w + " " + tail)
  {
    var s := w + " " + tail;
    assert forall j :: 0 <= j < |w| ==> s[j] == w[j];
    assert s[|w|] == ' ';
    assert forall j :: |w| < j < |s| ==> s[j] == tail[j - |w| - 1];
    forall i | 0 <= i < |s| - 1
      ensures !DoubleSpaceAt(s, i)
    {
      if i > |w| {
        assert !DoubleSpaceAt(tail, i - |w| - 1);
      }
    }
  }

  lemma ConsRemoveSpace(w: string, tail: string)
    requires IsWord(w)
    ensures RemoveSpace(w + " " + tail) == w + RemoveSpace(tail)
  {
    RemoveSpaceAppend(w + " ", tail);
    RemoveSpaceAppend(w, " ");
    RemoveSpaceOfNoSpace(w);
    RemoveSpaceCons(' ', []);
    assert RemoveSpace(" ") == [] by {
      assert " " == [' '] + [];
    }
  }

  /** One character in front: kept unless it is whitespace. */
  lemma RemoveSpaceCons(c: char, s: string)
    ensures RemoveSpace([c] + s) == (if IsSpace(c) then [] else [c]) + RemoveSpace(s)
  {
    assert ([c] + s)[1..] == s;
  }

  /** `" ".join(ws)`.  Joining tokens gives a single-spaced string that holds
      exactly the tokens' characters besides the separating spaces. */
  function Join(ws: seq<string>): (s: string)
    ensures AllWords(ws) && ws != [] ==> SingleSpaced(s)
    ensures AllWords(ws) ==> RemoveSpace(s) == Concat(ws)
  {
    if ws == [] then []
    else if |ws| == 1 then
      assert AllWords(ws) ==> RemoveSpace(ws[0]) == ws[0] by {
        if AllWords(ws) { RemoveSpaceOfNoSpace(ws[0]); }
      }
      ws[0]
    else
      var tail := Join(ws[1..]);
      assert AllWords(ws) ==>
        SingleSpaced(ws[0] + " " + tail) && RemoveSpace(ws[0] + " " + tail) == Concat(ws) by {
        if AllWords(ws) {
          assert IsWord(ws[0]) && AllWords(ws[1..]);
          ConsSingleSpaced(ws[0], tail);
          ConsRemoveSpace(ws[0], tail);
        }
      }
      ws[0] + " " + tail
  }

  /** Two words joined to a string: the first word is the first token. */
  lemma WordLenOfWordThenSpace(w: string, rest: string)
    requires NoSpace(w)
    requires rest == [] || IsSpace(rest[0])
    ensures WordLen(w + rest) == |w|
    decreases |w|
  {
    if w != [] {
      assert (w + rest)[1..] == w[1..] + rest;
      WordLenOfWordThenSpace(w[1..], rest);
    }
  }

  /** A word followed by a space is the first token, and the tokens of what
      follows the space come after it. */
  lemma SplitWordThenSpace(w: string, rest: string)
    requires IsWord(w)
    ensures Split(w + " " + rest) == [w] + Split(rest)
  {
    var s := w + " " + rest;
    WordLenOfWordThenSpace(w, " " + rest);
    assert s == w + (" " + rest);
    assert s[..|w|] == w;
    assert s[|w|..] == " " + rest;
    assert (" " + rest)[1..] == rest;
  }

  /** Splitting what `Join` produced gives back the tokens. */
  lemma {:induction false} SplitJoin(ws: seq<string>)
    requires AllWords(ws)
    ensures Split(Join(ws)) == ws
    decreases |ws|
  {
    if ws == [] {
    } else if |ws| == 1 {
      var w := ws[0];
      WordLenOfWordThenSpace(w, []);
      assert w + [] == w;
      assert w[|w|..] == [];
    } else {
      SplitWordThenSpace(ws[0], Join(ws[1..]));
      SplitJoin(ws[1..]);
      assert ws == [ws[0]] + ws[1..];
    }
  }

  /** A whitespace character ends the first word of `a` no matter what
      follows it. */
  lemma {:induction false} WordLenBeforeSpace(a: string, rest: string)
    requires rest != [] && IsSpace(rest[0])
    ensures WordLen(a + rest) == WordLen(a)
    decreases |a|
  {
    if a == [] {
      assert a + rest == rest;
    } else {
      assert (a + rest)[0] == a[0];
      if !IsSpace(a[0]) {
        assert (a + rest)[1..] == a[1..] + rest;
        WordLenBeforeSpace(a[1..], rest);
      }
    }
  }

  /** Any whitespace character is a split point: the tokens on either side
      of it are split separately and no token spans it. */
  lemma {:induction false} SplitAtSpace(a: string, c: char, b: string)
    requires IsSpace(c)
    ensures Split(a + [c] + b) == Split(a) + Split(b)
    decreases |a|
  {
    if a == [] {
      SplitSkipSpace([c] + b);
      assert a + [c] + b == [c] + b && ([c] + b)[1..] == b;
    } else if IsSpace(a[0]) {
      SplitAtSpace(a[1..], c, b);
      SplitSpaceStep(a, c, b);
    } else {
      SplitAtSpace(a[WordLen(a)..], c, b);
      SplitWordStep(a, c, b);
    }
  }

  /** The induction step of `SplitAtSpace` over a leading space of `a`. */
  lemma SplitSpaceStep(a: string, c: char, b: string)
    requires a != [] && IsSpace(a[0])
    requires Split(a[1..] + [c] + b) == Split(a[1..]) + Split(b)
    ensures Split(a + [c] + b) == Split(a) + Split(b)
  {
    var s := a + [c] + b;
    assert s[0] == a[0] && s[1..] == a[1..] + [c] + b;
    SplitSkipSpace(s);
    SplitSkipSpace(a);
  }

  /** The induction step of `SplitAtSpace` over a leading word of `a`. */
  lemma SplitWordStep(a: string, c: char, b: string)
    requires a != [] && !IsSpace(a[0]) && IsSpace(c)
    requires Split(a[WordLen(a)..] + [c] + b) == Split(a[WordLen(a)..]) + Split(b)
    ensures Split(a + [c] + b) == Split(a) + Split(b)
  {
    SplitFirstWord(a, c, b, a + [c] + b);
    SplitWord(a);
  }

  /** A leading whitespace character gives no token. */
  lemma SplitSkipSpace(s: string)
    requires s != [] && IsSpace(s[0])
    ensures Split(s) == Split(s[1..])
  {
  }

  /** The first word of `a` is the first token of `a` followed by text that
      starts with whitespace.  `s` names `a + [c] + b` only to keep the proof
      small for the solver. */
  lemma SplitFirstWord(a: string, c: char, b: string, s: string)
    requires a != [] && !IsSpace(a[0]) && IsSpace(c)
    requires s == a + [c] + b
    ensures WordLen(a) > 0
    ensures Split(s) == [a[..WordLen(a)]] + Split(a[WordLen(a)..] + [c] + b)
  {
    var n := WordLen(a);
    var rest := [c] + b;
    assert s == a + rest;
    WordLenBeforeSpace(a, rest);
    assert s[0] == a[0];
    SplitWord(s);
    assert s[..n] == a[..n];
    assert s[n..] == a[n..] + [c] + b;
  }

  /** A string that starts with a word splits into that word and the split
      of what follows it. */
  lemma SplitWord(s: string)
    requires s != [] && !IsSpace(s[0])
    ensures WordLen(s) > 0
    ensures Split(s) == [s[..WordLen(s)]] + Split(s[WordLen(s)..])
  {
  }

  /** Leading whitespace gives no token. */
  lemma {:induction false} SplitSpacePrefix(w: string, b: string)
    requires AllSpace(w)
    ensures Split(w + b) == Split(b)
    decreases |w|
  {
    if w != [] {
      assert (w + b)[0] == w[0] && IsSpace(w[0]);
      assert (w + b)[1..] == w[1..] + b;
      AllSpaceTail(w);
      SplitSpacePrefix(w[1..], b);
    } else {
      assert w + b == b;
    }
  }

  /** A run of whitespace of any length is a single split point. */
  lemma SplitAtSpaceRun(a: string, w: string, b: string)
    requires w != [] && AllSpace(w)
    ensures Split(a + w + b) == Split(a) + Split(b)
  {
    var w' := w[1..];
    assert a + w + b == a + [w[0]] + (w' + b);
    SplitAtSpace(a, w[0], w' + b);
    AllSpaceTail(w);
    SplitSpacePrefix(w', b);
  }

  /** Trailing whitespace gives no token. */
  lemma SplitSpaceSuffix(a: string, w: string)
    requires AllSpace(w)
    ensures Split(a + w) == Split(a)
  {
    if w != [] {
      SplitAtSpaceRun(a, w, []);
      assert a + w + [] == a + w;
      assert Split(a) + [] == Split(a);
    } else {
      assert a + w == a;
    }
  }

  lemma AllSpaceTail(w: string)
    requires w != [] && AllSpace(w)
    ensures AllSpace(w[1..])
  {
    forall i | 0 <= i < |w[1..]|
      ensures IsSpace(w[1..][i])
    {
      assert w[1..][i] == w[i + 1];
    }
  }

  /** What follows a space inside a single-spaced string is single-spaced. */
  lemma SingleSpacedSuffix(s: string, k: nat)
    requires SingleSpaced(s)
    requires 0 < k < |s| && s[k - 1] == ' '
    ensures SingleSpaced(s[k..])
  {
    var rest := s[k..];
    assert rest[0] == s[k];
    assert !DoubleSpaceAt(s, k - 1);
    assert rest[|rest| - 1] == s[|s| - 1];
    forall i | 0 <= i < |rest| && IsSpace(rest[i])
      ensures rest[i] == ' '
    {
      assert rest[i] == s[k + i];
    }
    forall i | 0 <= i < |rest| - 1
      ensures !DoubleSpaceAt(rest, i)
    {
      assert rest[i] == s[k + i];
      assert rest[i + 1] == s[k + i + 1];
      assert !DoubleSpaceAt(s, k + i);
    }
  }

  /** Joining the tokens of a single-spaced string gives back the string. */
  lemma {:induction false} JoinSplit(s: string)
    requires SingleSpaced(s)
    ensures Join(Split(s)) == s
    decreases |s|
  {
    var n := WordLen(s);
    assert !IsSpace(s[0]);
    if n == |s| {
      assert s[n..] == [];
      assert s[..n] == s;
      assert Split(s) == [s];
    } else {
      var w := s[..n];
      var rest := s[n + 1..];
      assert s[n] == ' ';
      assert !DoubleSpaceAt(s, n);
      assert s == w + " " + rest;
      SplitWordThenSpace(w, rest);
      SingleSpacedSuffix(s, n + 1);
      var ws := Split(rest);
      assert ws != [] by {
        assert !IsSpace(rest[0]);
      }
      JoinSplit(rest);
      assert ([w] + ws)[1..] == ws;
    }
  }

  /** A character other than the space that no token contains does not
      occur in their join. */
  lemma {:induction false} JoinAvoids(ws: seq<string>, c: char)
    requires c != ' '
    requires forall i :: 0 <= i < |ws| ==> c !in ws[i]
    ensures c !in Join(ws)
    decreases |ws|
  {
    if |ws| > 1 {
      JoinAvoids(ws[1..], c);
    }
  }

  // ---------------------------------------------------------------------
  // str.strip()
  // ---------------------------------------------------------------------

  /** `s.lstrip()`: drops the leading whitespace and nothing else. */
  function TrimStart(s: string): (r: string)
    ensures |r| <= |s|
    ensures r == s[|s| - |r|..]
    ensures AllSpace(s[..|s| - |r|])
    ensures r == [] || !IsSpace(r[0])
  {
    if s != [] && IsSpace(s[0]) then
      var r := TrimStart(s[1..]);
      assert s[1..][..|s| - 1 - |r|] == s[1..|s| - |r|];
      r
    else s
  }

  /** `s.rstrip()`: drops the trailing whitespace and nothing else. */
  function TrimEnd(s: string): (r: string)
    ensures |r| <= |s|
    ensures r == s[..|r|]
    ensures AllSpace(s[|r|..])
    ensures r == [] || !IsSpace(r[|r| - 1])
  {
    if s != [] && IsSpace(s[|s| - 1]) then
      var r := TrimEnd(s[..|s| - 1]);
      assert s[..|s| - 1][|r|..] == s[|r|..|s| - 1];
      r
    else s
  }

  /** `s.strip()`.  The result has no whitespace at either end, keeps every
      non-whitespace character of `s`, and leaves a string that already has
      no whitespace at its ends unchanged. */
  function Strip(s: string): (r: string)
    ensures |r| <= |s|
    ensures r == [] || (!IsSpace(r[0]) && !IsSpace(r[|r| - 1]))
    ensures RemoveSpace(r) == RemoveSpace(s)
    ensures s == [] || (!IsSpace(s[0]) && !IsSpace(s[|s| - 1])) ==> r == s
  {
    var t := TrimStart(s);
    var r := TrimEnd(t);
    TrimStartKeepsText(s);
    TrimEndKeepsText(t);
    TrimEndKeepsStart(t);
    r
  }

  /** `strip()` removes whitespace at the ends only: the result is a
      contiguous part of `s` with nothing but whitespace around it. */
  lemma StripKeepsInside(s: string)
    ensures exists k :: PaddedAt(s, k, Strip(s))
  {
    var t := TrimStart(s);
    var r := TrimEnd(t);
    var k := |s| - |t|;
    assert r == Strip(s);
    SuffixSlices(s, k, |r|);
    assert AllSpace(s[..k]);
    assert AllSpace(s[k + |r|..]) by {
      assert AllSpace(t[|r|..]);
    }
    assert PaddedAt(s, k, r);
  }

  /** `s` is `r` starting at index `k`, with only whitespace around it. */
  predicate PaddedAt(s: string, k: int, r: string) {
    && 0 <= k <= |s| - |r|
    && r == s[k..k + |r|]
    && AllSpace(s[..k])
    && AllSpace(s[k + |r|..])
  }

  lemma SuffixSlices(s: string, k: nat, m: nat)
    requires k + m <= |s|
    ensures s[k..][..m] == s[k..k + m] && s[k..][m..] == s[k + m..]
  {
  }

  /** `strip()` removes exactly the whitespace padding around a string whose
      ends are not whitespace, and leaves the inside as it is. */
  lemma StripPadded(a: string, t: string, b: string)
    requires AllSpace(a) && AllSpace(b)
    requires t == [] || (!IsSpace(t[0]) && !IsSpace(t[|t| - 1]))
    ensures Strip(a + t + b) == t
  {
    if t == [] {
      assert a + t + b == (a + b) + [];
      assert AllSpace(a + b) by {
        forall i | 0 <= i < |a + b|
          ensures IsSpace((a + b)[i])
        {
          if i < |a| {
            assert (a + b)[i] == a[i];
          } else {
            assert (a + b)[i] == b[i - |a|];
          }
        }
      }
      TrimStartPadded(a + b, []);
    } else {
      assert a + t + b == a + (t + b);
      assert (t + b)[0] == t[0];
      TrimStartPadded(a, t + b);
      TrimEndPadded(t, b);
    }
  }

  lemma {:induction false} TrimStartPadded(a: string, t: string)
    requires AllSpace(a)
    requires t == [] || !IsSpace(t[0])
    ensures TrimStart(a + t) == t
    decreases |a|
  {
    if a == [] {
      assert a + t == t;
    } else {
      assert (a + t)[0] == a[0];
      assert (a + t)[1..] == a[1..] + t;
      TrimStartPadded(a[1..], t);
    }
  }

  lemma {:induction false} TrimEndPadded(t: string, b: string)
    requires AllSpace(b)
    requires t == [] || !IsSpace(t[|t| - 1])
    ensures TrimEnd(t + b) == t
    decreases |b|
  {
    if b == [] {
      assert t + b == t;
    } else {
      var b' := b[..|b| - 1];
      assert (t + b)[|t + b| - 1] == b[|b| - 1];
      assert (t + b)[..|t + b| - 1] == t + b';
      TrimEndPadded(t, b');
    }
  }

  lemma TrimEndKeepsStart(t: string)
    requires t == [] || !IsSpace(t[0])
    ensures TrimEnd(t) == [] || !IsSpace(TrimEnd(t)[0])
  {
    var r := TrimEnd(t);
    if r != [] {
      assert r[0] == t[0];
    }
  }

  lemma TrimStartKeepsText(s: string)
    ensures RemoveSpace(TrimStart(s)) == RemoveSpace(s)
  {
    var t := TrimStart(s);
    assert s == s[..|s| - |t|] + t;
    RemoveSpaceAppend(s[..|s| - |t|], t);
    RemoveSpaceOfAllSpace(s[..|s| - |t|]);
  }

  lemma TrimEndKeepsText(s: string)
    ensures RemoveSpace(TrimEnd(s)) == RemoveSpace(s)
  {
    var r := TrimEnd(s);
    assert s == r + s[|r|..];
    RemoveSpaceAppend(r, s[|r|..]);
    RemoveSpaceOfAllSpace(s[|r|..]);
  }

  /** Stripping twice is stripping once. */
  lemma StripIdempotent(s: string)
    ensures Strip(Strip(s)) == Strip(s)
  {
  }

  // ---------------------------------------------------------------------
  // str.lower()
  // ---------------------------------------------------------------------

  predicate IsUpper(c: char) {
    'A' <= c <= 'Z'
  }

  function LowerChar(c: char): char {
    if IsUpper(c) then (c as int + 32) as char else c
  }

  /** `s.lower()` on ASCII letters: same length, no upper-case letter left,
      and each character is either kept or is the lower-case form of an
      upper-case letter. */
  function Lower(s: string): (r: string)
    ensures |r| == |s|
    ensures forall i :: 0 <= i < |r| ==> !IsUpper(r[i])
    ensures forall i :: 0 <= i < |r| ==>
      r[i] == s[i] || (IsUpper(s[i]) && r[i] as int == s[i] as int + 32)
  {
    seq(|s|, i requires 0 <= i < |s| => LowerChar(s[i]))
  }

  /** Lowering never turns whitespace into text or text into whitespace. */
  lemma LowerKeepsSpace(s: string, i: int)
    requires 0 <= i < |s|
    ensures IsSpace(Lower(s)[i]) <==> IsSpace(s[i])
  {
  }

  /** Lowering twice is lowering once. */
  lemma {:induction false} LowerIdempotent(s: string)
    ensures Lower(Lower(s)) == Lower(s)
  {
    var once := Lower(s);
    forall i | 0 <= i < |s|
      ensures Lower(once)[i] == once[i]
    {
      assert !IsUpper(once[i]);
    }
  }

  /** Lowering works character by character. */
  lemma LowerAppend(a: string, b: string)
    ensures Lower(a + b) == Lower(a) + Lower(b)
  {
    assert forall i :: 0 <= i < |a| ==> (a + b)[i] == a[i];
    assert forall i :: |a| <= i < |a + b| ==> (a + b)[i] == b[i - |a|];
  }

  /** Text without capital letters is already lower-case. */
  lemma LowerWithoutCapitals(s: string)
    requires forall i :: 0 <= i < |s| ==> !IsUpper(s[i])
    ensures Lower(s) == s
  {
  }

  /** Stripping and lowering commute: lowering keeps whitespace where it is. */
  lemma StripLower(s: string)
    ensures Strip(Lower(s)) == Lower(Strip(s))
  {
    TrimStartLower(s);
    TrimEndLower(TrimStart(s));
  }

  lemma {:induction false} TrimStartLower(s: string)
    ensures TrimStart(Lower(s)) == Lower(TrimStart(s))
    decreases |s|
  {
    if s != [] {
      LowerKeepsSpace(s, 0);
      if IsSpace(s[0]) {
        assert Lower(s)[1..] == Lower(s[1..]);
        TrimStartLower(s[1..]);
      }
    }
  }

  lemma {:induction false} TrimEndLower(s: string)
    ensures TrimEnd(Lower(s)) == Lower(TrimEnd(s))
    decreases |s|
  {
    if s != [] {
      LowerKeepsSpace(s, |s| - 1);
      if IsSpace(s[|s| - 1]) {
        assert Lower(s)[..|s| - 1] == Lower(s[..|s| - 1]);
        TrimEndLower(s[..|s| - 1]);
      }
    }
  }

  // ---------------------------------------------------------------------
  // str.splitlines()
  // ---------------------------------------------------------------------

  /** The line boundaries `str.splitlines()` recognises ("\r\n" counts as
      one boundary). */
  predicate IsLineBreak(c: char) {
    var n := c as int;
    || n == 0x0A || n == 0x0B || n == 0x0C || n == 0x0D
    || n == 0x1C || n == 0x1D || n == 0x1E
    || n == 0x85 || n == 0x2028 || n == 0x2029
  }

  predicate NoLineBreak(s: string) {
    forall i :: 0 <= i < |s| ==> !IsLineBreak(s[i])
  }

  /** Length of the longest break-free prefix of `s`. */
  function LineLen(s: string): (n: nat)
    ensures n <= |s|
    ensures NoLineBreak(s[..n])
    ensures n < |s| ==> IsLineBreak(s[n])
  {
    if s == [] || IsLineBreak(s[0]) then 0
    else
      var n := 1 + LineLen(s[1..]);
      assert s[..n] == [s[0]] + s[1..][..n - 1];
      n
  }

  /** `s.splitlines()`: the lines of `s` without their terminators; a final
      terminator does not start an extra empty line. */
  function SplitLines(s: string): (ls: seq<string>)
    ensures forall i :: 0 <= i < |ls| ==> NoLineBreak(ls[i])
    ensures |ls| <= |s|
    decreases |s|
  {
    if s == [] then []
    else
      var n := LineLen(s);
      if n == |s| then [s]
      else
        var skip := if s[n] == '\r' && n + 1 < |s| && s[n + 1] == '\n' then 2 else 1;
        [s[..n]] + SplitLines(s[n + skip..])
  }

  /** Each line followed by "\n": the text a line-oriented writer produces. */
  function Terminated(ls: seq<string>): string {
    if ls == [] then [] else ls[0] + "\n" + Terminated(ls[1..])
  }

  lemma LineLenOfLineThenBreak(l: string, rest: string)
    requires NoLineBreak(l)
    requires rest != [] && IsLineBreak(rest[0])
    ensures LineLen(l + rest) == |l|
    decreases |l|
  {
    if l != [] {
      assert (l + rest)[1..] == l[1..] + rest;
      LineLenOfLineThenBreak(l[1..], rest);
    }
  }

  /** A line without a boundary, then a boundary: that line, then the lines
      of what follows.  A lone "\r" is a boundary only when no "\n" follows
      it, since "\r\n" is a single boundary. */
  lemma SplitLinesBreak(l: string, c: char, rest: string)
    requires NoLineBreak(l) && IsLineBreak(c)
    requires c == '\r' ==> rest == [] || rest[0] != '\n'
    ensures SplitLines(l + [c] + rest) == [l] + SplitLines(rest)
  {
    SplitLinesAt(l + [c] + rest, l, [c], rest);
  }

  /** "\r\n" ends one line, not two. */
  lemma SplitLinesCrLf(l: string, rest: string)
    requires NoLineBreak(l)
    ensures SplitLines(l + "\r\n" + rest) == [l] + SplitLines(rest)
  {
    SplitLinesAt(l + "\r\n" + rest, l, "\r\n", rest);
  }

  /** The common step of the two lemmas above: `s` is a line `l`, one
      boundary `b` and the text after it (`s` is named only to keep the proof
      small for the solver). */
  lemma SplitLinesAt(s: string, l: string, b: string, rest: string)
    requires s == l + b + rest && NoLineBreak(l)
    requires b == "\r\n" || (|b| == 1 && IsLineBreak(b[0]) && (b[0] == '\r' ==> rest == [] || rest[0] != '\n'))
    ensures SplitLines(s) == [l] + SplitLines(rest)
  {
    assert s == l + (b + rest);
    LineLenOfLineThenBreak(l, b + rest);
    assert s[..|l|] == l;
    assert s[|l|] == b[0];
    assert |b| == 2 ==> s[|l| + 1] == b[1];
    assert s[|l| + |b|..] == rest;
  }

  lemma {:induction false} LineLenOfLine(l: string)
    requires NoLineBreak(l)
    ensures LineLen(l) == |l|
    decreases |l|
  {
    if l != [] {
      LineLenOfLine(l[1..]);
    }
  }

  /** Text whose last line has no terminator, as page text usually is: the
      last line is kept and no empty line is added. */
  lemma {:induction false} SplitLinesUnterminated(ls: seq<string>, l: string)
    requires forall i :: 0 <= i < |ls| ==> NoLineBreak(ls[i])
    requires NoLineBreak(l) && l != []
    ensures SplitLines(Terminated(ls) + l) == ls + [l]
    decreases |ls|
  {
    if ls == [] {
      assert Terminated(ls) + l == l;
      LineLenOfLine(l);
    } else {
      SplitLinesFirst(ls, l);
      SplitLinesUnterminated(ls[1..], l);
      assert ls == [ls[0]] + ls[1..];
    }
  }

  /** The first terminated line comes off the front of `Terminated(ls)`,
      whatever text follows. */
  lemma SplitLinesFirst(ls: seq<string>, tail: string)
    requires ls != [] && NoLineBreak(ls[0])
    ensures SplitLines(Terminated(ls) + tail) == [ls[0]] + SplitLines(Terminated(ls[1..]) + tail)
  {
    var rest := Terminated(ls[1..]) + tail;
    assert Terminated(ls) + tail == ls[0] + ['\n'] + rest;
    SplitLinesBreak(ls[0], '\n', rest);
  }

  /** Splitting newline-terminated lines gives back the lines. */
  lemma {:induction false} SplitLinesTerminated(ls: seq<string>)
    requires forall i :: 0 <= i < |ls| ==> NoLineBreak(ls[i])
    ensures SplitLines(Terminated(ls)) == ls
    decreases |ls|
  {
    if ls != [] {
      var l := ls[0];
      var rest := Terminated(ls[1..]);
      var s := l + "\n" + rest;
      assert s == l + ("\n" + rest);
      LineLenOfLineThenBreak(l, "\n" + rest);
      assert s[|l|] == '\n';
      assert s[..|l|] == l;
      assert s[|l| + 1..] == rest;
      SplitLinesTerminated(ls[1..]);
    }
  }
}
