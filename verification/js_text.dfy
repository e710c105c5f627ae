/** The string built-ins the modelled code calls: `trim`, `toLowerCase`,
    `includes`, `split(/\s+/)`, `split('@')[0]` and `String(n)` of an integer. */
module JsText {

  /** ECMAScript WhiteSpace and LineTerminator code points: what `trim` strips
      and what the regular-expression class `\s` matches. */
  predicate IsWhite(c: char) {
    if c < '\U{00A0}' then c == ' ' || '\t' <= c <= '\r' else
      c == '\U{00A0}' || c == '\U{1680}' || '\U{2000}' <= c <= '\U{200A}'
      || c == '\U{2028}' || c == '\U{2029}' || c == '\U{202F}' || c == '\U{205F}'
      || c == '\U{3000}' || c == '\U{FEFF}'
  }

  predicate AllWhite(s: string) {
    forall i :: 0 <= i < |s| ==> IsWhite(s[i])
  }

  lemma AllWhiteConcat(a: string, b: string)
    requires AllWhite(a) && AllWhite(b)
    ensures AllWhite(a + b)
  {
  }

  predicate HasWhite(s: string) {
    exists i :: 0 <= i < |s| && IsWhite(s[i])
  }

  /* ---------- trim ---------- */

  /** `String.prototype.trimStart`: the longest suffix not starting with white space. */
  function TrimStart(s: string): (r: string)
    ensures |r| <= |s| && r == s[|s| - |r|..]
    ensures AllWhite(s[..|s| - |r|])
    ensures r == [] || !IsWhite(r[0])
    ensures |s| > 0 && IsWhite(s[0]) ==> |r| < |s|
  {
    if |s| > 0 && IsWhite(s[0]) then
      var r := TrimStart(s[1..]);
      var k := |s| - |r|;
      assert AllWhite(s[..k]) by {
        var w := s[1..][..k - 1];
        forall i | 0 <= i < k ensures IsWhite(s[..k][i]) {
          if i > 0 {
            assert s[..k][i] == w[i - 1];
          }
        }
      }
      r
    else s
  }

  /** `String.prototype.trimEnd`: the longest prefix not ending with white space. */
  function TrimEnd(s: string): (r: string)
    ensures |r| <= |s| && r == s[..|r|]
    ensures AllWhite(s[|r|..])
    ensures r == [] || !IsWhite(r[|r| - 1])
  {
    if |s| > 0 && IsWhite(s[|s| - 1]) then
      var r := TrimEnd(s[..|s| - 1]);
      var w := s[..|s| - 1][|r|..];
      assert s[|r|..] == w + [s[|s| - 1]];
      AllWhiteConcat(w, [s[|s| - 1]]);
      r
    else s
  }

  /** `String.prototype.trim`: white space removed from both ends. */
  function Trim(s: string): (r: string)
    ensures |r| <= |s|
    ensures r == [] || (!IsWhite(r[0]) && !IsWhite(r[|r| - 1]))
  {
    var a := TrimStart(s);
    var r := TrimEnd(a);
    assert r == [] || r[0] == a[0];
    r
  }

  /** What `trim` leaves is a slice of its input with only white space on
      either side of it. */
  lemma TrimIsSlice(s: string)
    ensures exists i :: 0 <= i <= |s| - |Trim(s)| && s[i..i + |Trim(s)|] == Trim(s)
                        && AllWhite(s[..i]) && AllWhite(s[i + |Trim(s)|..])
  {
    var a := TrimStart(s);
    var r := TrimEnd(a);
    var i := |s| - |a|;
    assert r == Trim(s);
    assert a == s[i..];
    assert s[i..i + |r|] == r;
    assert s[i + |r|..] == a[|r|..];
  }

  /** A string with no white space at either end is its own trim. */
  lemma TrimOfTrimmed(s: string)
    requires s == [] || (!IsWhite(s[0]) && !IsWhite(s[|s| - 1]))
    ensures Trim(s) == s
  {
  }

  lemma TrimIdempotent(s: string)
    ensures Trim(Trim(s)) == Trim(s)
  {
    TrimOfTrimmed(Trim(s));
  }

  lemma {:induction false} TrimStartAllWhite(s: string)
    requires AllWhite(s)
    ensures TrimStart(s) == []
    decreases |s|
  {
    if |s| > 0 {
      TrimStartAllWhite(s[1..]);
    }
  }

  /** A string trims to nothing exactly when it is all white space. */
  lemma TrimEmpty(s: string)
    ensures Trim(s) == [] <==> AllWhite(s)
  {
    var a := TrimStart(s);
    if AllWhite(s) {
      TrimStartAllWhite(s);
    }
    if TrimEnd(a) == [] {
      assert a[0..] == a;
      assert a == [];
      assert s[..|s|] == s;
    }
  }

  /** Appending a white-space character strips along with the rest. */
  lemma {:induction false} TrimStartAppendWhite(s: string, c: char)
    requires IsWhite(c)
    ensures TrimStart(s + [c]) == if AllWhite(s) then [] else TrimStart(s) + [c]
    decreases |s|
  {
    if |s| == 0 {
      assert TrimStart([c]) == TrimStart([]);
    } else if IsWhite(s[0]) {
      assert (s + [c])[1..] == s[1..] + [c];
      TrimStartAppendWhite(s[1..], c);
    } else {
      assert !AllWhite(s);
    }
  }

  /** Appending a white-space character does not change the trim. */
  lemma TrimAppendWhite(s: string, c: char)
    requires IsWhite(c)
    ensures Trim(s + [c]) == Trim(s)
  {
    TrimStartAppendWhite(s, c);
    TrimEmpty(s);
    if !AllWhite(s) {
      var a := TrimStart(s);
      assert (a + [c])[..|a|] == a;
    }
  }

  /* ---------- toLowerCase ---------- */

  function LowerChar(c: char): char {
    if 'A' <= c <= 'Z' then (c as int + 32) as char else c
  }

  /** `String.prototype.toLowerCase`, for the ASCII letters. */
  function Lower(s: string): (r: string)
    ensures |r| == |s|
    ensures forall i :: 0 <= i < |s| ==>
              if 'A' <= s[i] <= 'Z' then r[i] as int == s[i] as int + 32 else r[i] == s[i]
  {
    seq(|s|, i requires 0 <= i < |s| => LowerChar(s[i]))
  }

  lemma LowerIdempotent(s: string)
    ensures Lower(Lower(s)) == Lower(s)
  {
  }

  /** Lower-casing maps white space to itself and everything else to
      something that is not white space. */
  lemma LowerCharWhite(c: char)
    ensures IsWhite(c) ==> LowerChar(c) == c
    ensures IsWhite(LowerChar(c)) == IsWhite(c)
  {
  }

  lemma {:induction false} LowerTrimStart(s: string)
    ensures Lower(TrimStart(s)) == TrimStart(Lower(s))
    decreases |s|
  {
    var l := Lower(s);
    if |s| > 0 {
      LowerCharWhite(s[0]);
      assert l[0] == LowerChar(s[0]);
      if IsWhite(s[0]) {
        assert l[1..] == Lower(s[1..]);
        LowerTrimStart(s[1..]);
        assert TrimStart(s) == TrimStart(s[1..]);
        assert TrimStart(l) == TrimStart(l[1..]);
      } else {
        assert TrimStart(s) == s;
        assert TrimStart(l) == l;
      }
    }
  }

  lemma {:induction false} LowerTrimEnd(s: string)
    ensures Lower(TrimEnd(s)) == TrimEnd(Lower(s))
    decreases |s|
  {
    var l := Lower(s);
    if |s| > 0 {
      var k := |s| - 1;
      LowerCharWhite(s[k]);
      assert l[k] == LowerChar(s[k]);
      if IsWhite(s[k]) {
        assert l[..k] == Lower(s[..k]);
        LowerTrimEnd(s[..k]);
        assert TrimEnd(s) == TrimEnd(s[..k]);
        assert TrimEnd(l) == TrimEnd(l[..k]);
      } else {
        assert TrimEnd(s) == s;
        assert TrimEnd(l) == l;
      }
    }
  }

  /** Lower-casing never creates or removes white space, so it commutes with trim. */
  lemma LowerTrim(s: string)
    ensures Lower(Trim(s)) == Trim(Lower(s))
  {
    LowerTrimStart(s);
    LowerTrimEnd(TrimStart(s));
  }

  /** Trimming and lower-casing a query a second time changes nothing. */
  lemma NormalizeIdempotent(q: string)
    ensures Lower(Trim(Lower(Trim(q)))) == Lower(Trim(q))
  {
    LowerTrim(Trim(q));
    TrimIdempotent(q);
    LowerIdempotent(Trim(q));
  }

  /* ---------- includes ---------- */

  /** `k` occurs in `hay` starting at position `i`. */
  predicate OccursAt(hay: string, k: string, i: int) {
    0 <= i && i + |k| <= |hay| && hay[i..i + |k|] == k
  }

  /** `hay.includes(k)`: `k` occurs in `hay` at some position. */
  predicate Includes(hay: string, k: string)
    decreases |hay|
  {
    k <= hay || (|hay| > 0 && Includes(hay[1..], k))
  }

  /** The search agrees with the positional definition of a substring. */
  lemma {:induction false} IncludesSpec(hay: string, k: string)
    ensures Includes(hay, k) <==> exists i :: OccursAt(hay, k, i)
    decreases |hay|
  {
    if Includes(hay, k) {
      if k <= hay {
        assert OccursAt(hay, k, 0);
      } else {
        IncludesSpec(hay[1..], k);
        var i :| OccursAt(hay[1..], k, i);
        assert hay[i + 1..i + 1 + |k|] == hay[1..][i..i + |k|];
        assert OccursAt(hay, k, i + 1);
      }
    }
    if i :| OccursAt(hay, k, i) {
      if i == 0 {
        assert hay[..|k|] == k;
      } else {
        IncludesSpec(hay[1..], k);
        assert hay[1..][i - 1..i - 1 + |k|] == hay[i..i + |k|];
        assert OccursAt(hay[1..], k, i - 1);
      }
    }
  }

  /* ---------- split(/\s+/) ---------- */

  /** Length of the leading run of non-white characters. */
  function WordEnd(s: string): (n: nat)
    ensures n <= |s|
    ensures forall i :: 0 <= i < n ==> !IsWhite(s[i])
    ensures n < |s| ==> IsWhite(s[n])
  {
    if |s| == 0 || IsWhite(s[0]) then 0 else 1 + WordEnd(s[1..])
  }

  /** `s.split(/\s+/)`: the pieces between maximal runs of white space; a
      leading or trailing run yields an empty first or last piece, and the
      empty string yields one empty piece. */
  function SplitWhite(s: string): (r: seq<string>)
    ensures |r| >= 1
    ensures forall i :: 0 <= i < |r| ==> !HasWhite(r[i])
    decreases |s|
  {
    var n := WordEnd(s);
    if n == |s| then [s]
    else
      var rest := TrimStart(s[n..]);
      [s[..n]] + SplitWhite(rest)
  }

  /** Trimming the front keeps a last character that is not white space. */
  lemma {:induction false} TrimStartKeepsLast(s: string)
    requires s != [] && !IsWhite(s[|s| - 1])
    ensures TrimStart(s) != [] && TrimStart(s)[|TrimStart(s)| - 1] == s[|s| - 1]
    decreases |s|
  {
    if IsWhite(s[0]) {
      assert |s| > 1;
      assert s[1..][|s| - 2] == s[|s| - 1];
      TrimStartKeepsLast(s[1..]);
    }
  }

  /** On a trimmed, non-empty string every piece is a real (non-empty) word. */
  lemma {:induction false} SplitWhiteWords(s: string)
    requires s != [] && !IsWhite(s[0]) && !IsWhite(s[|s| - 1])
    ensures "" !in SplitWhite(s)
    decreases |s|
  {
    var n := WordEnd(s);
    assert n > 0;
    if n < |s| {
      var t := s[n..];
      assert t[|t| - 1] == s[|s| - 1];
      TrimStartKeepsLast(t);
      var rest := TrimStart(t);
      SplitWhiteWords(rest);
      assert SplitWhite(s) == [s[..n]] + SplitWhite(rest);
      assert s[..n] != "";
    }
  }

  /** A string of white space only splits, once trimmed, into the single
      empty piece: it counts as one word. */
  lemma SplitWhiteOfBlank(s: string)
    requires AllWhite(s)
    ensures SplitWhite(Trim(s)) == [""]
  {
    TrimEmpty(s);
  }

  /** A word starts at `i` when `s[i]` is not white space and either opens
      the string or follows white space. */
  predicate WordStartAt(s: string, i: int) {
    0 <= i < |s| && !IsWhite(s[i]) && (i == 0 || IsWhite(s[i - 1]))
  }

  /** The number of word starts among the first `n` positions. */
  function StartsBelow(s: string, n: nat): nat
    requires n <= |s|
  {
    if n == 0 then 0 else StartsBelow(s, n - 1) + (if WordStartAt(s, n - 1) then 1 else 0)
  }

  /** The number of words of `s`, counted position by position. */
  function WordStarts(s: string): nat {
    StartsBelow(s, |s|)
  }

  /** The count up to `n` depends on the first `n` characters only. */
  lemma {:induction false} StartsBelowPrefix(a: string, b: string, n: nat)
    requires n <= |a| && n <= |b| && a[..n] == b[..n]
    ensures StartsBelow(a, n) == StartsBelow(b, n)
  {
    if n > 0 {
      assert a[n - 1] == a[..n][n - 1] == b[..n][n - 1] == b[n - 1];
      if n > 1 {
        assert a[n - 2] == a[..n][n - 2] == b[..n][n - 2] == b[n - 2];
      }
      assert a[..n - 1] == a[..n][..n - 1];
      assert b[..n - 1] == b[..n][..n - 1];
      StartsBelowPrefix(a, b, n - 1);
    }
  }

  /** White space starts no word. */
  lemma {:induction false} StartsBelowWhite(s: string, k: nat, n: nat)
    requires k <= n <= |s|
    requires forall i :: k <= i < n ==> IsWhite(s[i])
    ensures StartsBelow(s, n) == StartsBelow(s, k)
  {
    if n > k {
      assert !WordStartAt(s, n - 1);
      StartsBelowWhite(s, k, n - 1);
    }
  }

  /** A run of non-white characters at the front is one word. */
  lemma {:induction false} StartsBelowWord(s: string, n: nat)
    requires 0 < n <= |s|
    requires forall i :: 0 <= i < n ==> !IsWhite(s[i])
    ensures StartsBelow(s, n) == 1
  {
    if n == 1 {
      assert WordStartAt(s, 0);
    } else {
      assert !WordStartAt(s, n - 1);
      StartsBelowWord(s, n - 1);
    }
  }

  /** Cutting after a white-space character splits the count. */
  lemma {:induction false} StartsBelowSplit(s: string, k: nat, n: nat)
    requires 0 < k <= n <= |s|
    requires IsWhite(s[k - 1])
    ensures StartsBelow(s, n) == StartsBelow(s, k) + StartsBelow(s[k..], n - k)
  {
    if n > k {
      var t := s[k..];
      assert t[n - 1 - k] == s[n - 1];
      if n - 1 > k {
        assert t[n - 2 - k] == s[n - 2];
      }
      assert WordStartAt(s, n - 1) == WordStartAt(t, n - 1 - k);
      StartsBelowSplit(s, k, n - 1);
    }
  }

  /** What follows a word once its white space is skipped keeps the last
      character. */
  lemma SkipWhiteAfter(s: string, n: nat)
    requires n < |s| && !IsWhite(s[|s| - 1])
    ensures TrimStart(s[n..]) != []
    ensures !IsWhite(TrimStart(s[n..])[|TrimStart(s[n..])| - 1])
  {
    var t := s[n..];
    assert t[|t| - 1] == s[|s| - 1];
    TrimStartKeepsLast(t);
  }

  /** What the skip passes over is white space. */
  lemma SkippedIsWhite(s: string, n: nat)
    requires n <= |s|
    ensures forall i :: n <= i < |s| - |TrimStart(s[n..])| ==> IsWhite(s[i])
  {
    var t := s[n..];
    var w := t[..|t| - |TrimStart(t)|];
    forall i | n <= i < |s| - |TrimStart(t)| ensures IsWhite(s[i]) {
      assert s[i] == w[i - n];
    }
  }

  /** A word followed by a run of white space counts once before the rest. */
  lemma WordStartsAfterWord(s: string, n: nat, m: nat)
    requires 0 < n < m <= |s|
    requires forall i :: 0 <= i < n ==> !IsWhite(s[i])
    requires forall i :: n <= i < m ==> IsWhite(s[i])
    ensures WordStarts(s) == 1 + WordStarts(s[m..])
  {
    StartsBelowSplit(s, m, |s|);
    StartsBelowWhite(s, n, m);
    StartsBelowWord(s, n);
  }

  /** Skipping white space after position `n` leaves a proper suffix. */
  lemma SkipWhiteSuffix(s: string, n: nat)
    requires n < |s| && IsWhite(s[n])
    ensures n < |s| - |TrimStart(s[n..])|
    ensures TrimStart(s[n..]) == s[|s| - |TrimStart(s[n..])|..]
  {
    var t := s[n..];
    assert t[0] == s[n];
    assert TrimStart(t) == t[|t| - |TrimStart(t)|..];
  }

  /** A word, then white space from `n` on: one word before what the skip
      leaves. */
  lemma WordStartsSkip(s: string, n: nat)
    requires 0 < n < |s| && IsWhite(s[n])
    requires forall i :: 0 <= i < n ==> !IsWhite(s[i])
    ensures WordStarts(s) == 1 + WordStarts(TrimStart(s[n..]))
  {
    var rest := TrimStart(s[n..]);
    var m := |s| - |rest|;
    assert n < m && rest == s[m..] by {
      SkipWhiteSuffix(s, n);
    }
    assert WordStarts(s) == 1 + WordStarts(s[m..]) by {
      SkippedIsWhite(s, n);
      WordStartsAfterWord(s, n, m);
    }
  }

  /** The word count drops by one past the first word and its white space. */
  lemma WordStartsStep(s: string)
    requires s != [] && !IsWhite(s[0]) && WordEnd(s) < |s|
    ensures WordStarts(s) == 1 + WordStarts(TrimStart(s[WordEnd(s)..]))
  {
    WordStartsSkip(s, WordEnd(s));
  }

  /** A word followed by white space is one piece before the rest. */
  lemma SplitWhiteStep(s: string)
    requires WordEnd(s) < |s|
    ensures |SplitWhite(s)| == 1 + |SplitWhite(TrimStart(s[WordEnd(s)..]))|
  {
  }

  /** A single word is one piece and one word start. */
  lemma SplitWhiteOneWord(s: string)
    requires s != [] && WordEnd(s) == |s|
    ensures |SplitWhite(s)| == 1 == WordStarts(s)
  {
    StartsBelowWord(s, |s|);
  }

  /** On a trimmed, non-empty string there is one piece per word start. */
  lemma {:induction false} SplitWhiteCount(s: string)
    requires s != [] && !IsWhite(s[0]) && !IsWhite(s[|s| - 1])
    ensures |SplitWhite(s)| == WordStarts(s)
    decreases |s|
  {
    var n := WordEnd(s);
    if n == |s| {
      SplitWhiteOneWord(s);
    } else {
      var rest := TrimStart(s[n..]);
      SkipWhiteAfter(s, n);
      SplitWhiteCount(rest);
      WordStartsStep(s);
      SplitWhiteStep(s);
    }
  }

  /** Trimming removes no word. */
  lemma WordStartsTrim(s: string)
    ensures WordStarts(Trim(s)) == WordStarts(s)
  {
    var a := TrimStart(s);
    var i := |s| - |a|;
    if i > 0 {
      assert IsWhite(s[i - 1]) by {
        assert s[i - 1] == s[..i][i - 1];
      }
      forall j | 0 <= j < i ensures IsWhite(s[j]) {
        assert s[j] == s[..i][j];
      }
      StartsBelowSplit(s, i, |s|);
      StartsBelowWhite(s, 0, i);
    }
    var r := TrimEnd(a);
    forall j | |r| <= j < |a| ensures IsWhite(a[j]) {
      assert a[j] == a[|r|..][j - |r|];
    }
    StartsBelowWhite(a, |r|, |a|);
    assert r[..|r|] == a[..|r|];
    StartsBelowPrefix(a, r, |r|);
  }

  /** `s.trim().split(/\s+/).length`: one for a blank string, otherwise the
      number of words. */
  lemma SplitWhiteTrimCount(s: string)
    ensures |SplitWhite(Trim(s))| == if AllWhite(s) then 1 else WordStarts(s)
  {
    TrimEmpty(s);
    if AllWhite(s) {
      SplitWhiteOfBlank(s);
    } else {
      SplitWhiteCount(Trim(s));
      WordStartsTrim(s);
    }
  }

  /* ---------- split(c)[0] ---------- */

  /** `s.split(c)[0]`: the text before the first `c`, or all of `s` if it has none. */
  function BeforeFirst(s: string, c: char): (r: string)
    ensures r <= s
    ensures c !in r
    ensures |r| < |s| ==> s[|r|] == c
  {
    if |s| == 0 || s[0] == c then [] else [s[0]] + BeforeFirst(s[1..], c)
  }

  /* ---------- String(n) ---------- */

  function DigitChar(d: nat): (c: char)
    requires d < 10
    ensures '0' <= c <= '9'
  {
    ('0' as int + d) as char
  }

  predicate IsDigits(s: string) {
    forall i :: 0 <= i < |s| ==> '0' <= s[i] <= '9'
  }

  /** Decimal notation of a natural number, without leading zeros. */
  function NatToString(n: nat): (r: string)
    ensures r != [] && IsDigits(r)
    ensures |r| > 1 ==> r[0] != '0'
  {
    if n < 10 then [DigitChar(n)] else NatToString(n / 10) + [DigitChar(n % 10)]
  }

  /** The value a digit string denotes. */
  function DigitsValue(s: string): nat
    requires IsDigits(s)
  {
    if |s| == 0 then 0 else 10 * DigitsValue(s[..|s| - 1]) + (s[|s| - 1] as int - '0' as int)
  }

  /** Decimal notation reads back as the number it writes. */
  lemma {:induction false} NatToStringRoundTrip(n: nat)
    ensures DigitsValue(NatToString(n)) == n
  {
    if n >= 10 {
      NatToStringRoundTrip(n / 10);
      var r := NatToString(n);
      assert r[..|r| - 1] == NatToString(n / 10);
    }
  }

  /** `String(n)` for an integer-valued number. */
  function IntToString(n: int): (r: string)
    ensures r != []
    ensures n < 0 <==> r[0] == '-'
  {
    if n < 0 then "-" + NatToString(-n) else NatToString(n)
  }
}
