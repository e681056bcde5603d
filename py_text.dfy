/** The Python `str` operations the modelled code relies on, for ASCII text.

    Whitespace is what `str.isspace()` accepts among the ASCII characters; it is
    also what `str.strip()`, `str.split()` with no argument and the regular
    expression class `\s` treat as whitespace. */
module PyText {
  import opened Wrappers

  const Whitespace: set<char> :=
    {' ', '\t', '\n', '\U{000B}', '\U{000C}', '\r', '\U{001C}', '\U{001D}', '\U{001E}', '\U{001F}'}

  predicate IsSpace(c: char) { c in Whitespace }

  /** Every character of `s` is in `cs`. */
  predicate AllIn(s: string, cs: set<char>) { forall i | 0 <= i < |s| :: s[i] in cs }

  /** Every character of `s` is whitespace (so `s.strip()` is empty). */
  predicate Blank(s: string) { AllIn(s, Whitespace) }

  /** `s` neither starts nor ends with whitespace. */
  predicate IsTrimmed(s: string) { s == [] || (!IsSpace(s[0]) && !IsSpace(s[|s| - 1])) }

  predicate IsUpper(c: char) { 'A' <= c <= 'Z' }

  predicate IsDigit(c: char) { '0' <= c <= '9' }

  /** The class `[a-zA-Z0-9]`. */
  predicate IsAlnum(c: char) { 'a' <= c <= 'z' || 'A' <= c <= 'Z' || IsDigit(c) }

  predicate AllDigits(s: string) { forall i | 0 <= i < |s| :: IsDigit(s[i]) }

  predicate StartsWith(s: string, p: string) { |p| <= |s| && s[..|p|] == p }

  predicate EndsWith(s: string, p: string) { |p| <= |s| && s[|s| - |p|..] == p }

  /** `p in s` for strings: `p` occurs somewhere in `s`. */
  predicate Contains(s: string, p: string) {
    exists i | 0 <= i <= |s| - |p| :: StartsWith(s[i..], p)
  }

  // ---------- strip ----------

  /** Number of characters in `cs` at the start of `s`. */
  function LeadingIn(s: string, cs: set<char>): (k: nat)
    ensures k <= |s|
    ensures forall i | 0 <= i < k :: s[i] in cs
    ensures k < |s| ==> s[k] !in cs
  {
    if s != [] && s[0] in cs then 1 + LeadingIn(s[1..], cs) else 0
  }

  /** Number of characters in `cs` at the end of `s`. */
  function TrailingIn(s: string, cs: set<char>): (k: nat)
    ensures k <= |s|
    ensures forall i | |s| - k <= i < |s| :: s[i] in cs
    ensures k < |s| ==> s[|s| - 1 - k] !in cs
  {
    if s != [] && s[|s| - 1] in cs then 1 + TrailingIn(s[..|s| - 1], cs) else 0
  }

  /** `s.lstrip(chars)`: drops the longest prefix made of characters in `cs`. */
  function LStrip(s: string, cs: set<char>): string {
    s[LeadingIn(s, cs)..]
  }

  /** `s.rstrip(chars)`: drops the longest suffix made of characters in `cs`. */
  function RStrip(s: string, cs: set<char>): string {
    s[..|s| - TrailingIn(s, cs)]
  }

  /** `s.strip(chars)`. */
  function StripChars(s: string, cs: set<char>): (r: string)
    ensures r != [] ==> r[0] !in cs && r[|r| - 1] !in cs
    ensures r == [] <==> AllIn(s, cs)
    ensures (s == [] || (s[0] !in cs && s[|s| - 1] !in cs)) ==> r == s
  {
    StripCharsFacts(s, cs);
    RStrip(LStrip(s, cs), cs)
  }

  lemma {:induction false} StripCharsFacts(s: string, cs: set<char>)
    ensures var r := RStrip(LStrip(s, cs), cs);
            && (r != [] ==> r[0] !in cs && r[|r| - 1] !in cs)
            && (r == [] <==> AllIn(s, cs))
            && ((s == [] || (s[0] !in cs && s[|s| - 1] !in cs)) ==> r == s)
  {
    var k := LeadingIn(s, cs);
    var l := s[k..];
    var m := TrailingIn(l, cs);
    if k < |s| {
      assert l[0] == s[k] && l[0] !in cs;
      assert m < |l|;
    }
  }

  /** `s.strip(chars)` splits `s` into the removed prefix, the result and the
      removed suffix, both removed parts made of characters in `cs`. */
  lemma {:induction false} StripCharsParts(s: string, cs: set<char>) returns (w: string, v: string)
    ensures s == w + StripChars(s, cs) + v
    ensures AllIn(w, cs) && AllIn(v, cs)
  {
    var k := LeadingIn(s, cs);
    var m := TrailingIn(s[k..], cs);
    assert StripChars(s, cs) == s[k..][..|s| - k - m];
    w, v := s[..k], s[|s| - m..];
    SliceThree(s, k, m);
  }

  /** Cutting `k` characters off the front and `m` off the back of `s` leaves
      three pieces that make up `s`. */
  lemma SliceThree(s: string, k: nat, m: nat)
    requires k + m <= |s|
    ensures s[k..][..|s| - k - m] == s[k..|s| - m]
    ensures s[k..][|s| - k - m..] == s[|s| - m..]
    ensures s == s[..k] + s[k..|s| - m] + s[|s| - m..]
  {
    assert s[..k] + s[k..|s| - m] == s[..|s| - m];
  }

  /** `s.strip(chars)` is a slice of `s`, and what it removes at each end is
      made of characters in `cs`. */
  lemma {:induction false} StripCharsSlice(s: string, cs: set<char>)
    ensures var r := StripChars(s, cs);
            exists i | 0 <= i <= |s| - |r| :: r == s[i..i + |r|] && AllIn(s[..i], cs) && AllIn(s[i + |r|..], cs)
  {
    var r := StripChars(s, cs);
    var w, v := StripCharsParts(s, cs);
    var k := |w|;
    assert s[..k] == w && s[k..k + |r|] == r && s[k + |r|..] == v;
  }

  /** Stripping introduces no character. */
  lemma {:induction false} StripCharsAvoids(s: string, cs: set<char>, c: char)
    requires c !in s
    ensures c !in StripChars(s, cs)
  {
    var k := LeadingIn(s, cs);
    var l := s[k..];
    var r := l[..|l| - TrailingIn(l, cs)];
    assert forall i | 0 <= i < |r| :: r[i] == s[k + i];
  }

  /** `s.strip()`. */
  function Strip(s: string): (r: string)
    ensures IsTrimmed(r)
    ensures r == [] <==> Blank(s)
    ensures IsTrimmed(s) ==> r == s
  {
    StripChars(s, Whitespace)
  }

  /** `s.strip()` is the middle of `s`: what it drops at either end is whitespace. */
  lemma {:induction false} StripSlice(s: string)
    ensures var r := Strip(s);
            exists i | 0 <= i <= |s| - |r| :: r == s[i..i + |r|] && Blank(s[..i]) && Blank(s[i + |r|..])
  {
    StripCharsSlice(s, Whitespace);
  }

  // ---------- search ----------

  /** `s.index(c)`: the position of the first `c`. */
  function IndexOf(s: string, c: char): (k: nat)
    requires c in s
    ensures k < |s| && s[k] == c && c !in s[..k]
  {
    if s[0] == c then 0 else 1 + IndexOf(s[1..], c)
  }

  /** `s.rindex(c)`: the position of the last `c`. */
  function LastIndexOf(s: string, c: char): (k: nat)
    requires c in s
    ensures k < |s| && s[k] == c && c !in s[k + 1..]
  {
    if s[|s| - 1] == c then |s| - 1 else LastIndexOf(s[..|s| - 1], c)
  }

  // ---------- split and join ----------

  /** `s.split(sep)` for a one-character separator. */
  function Split(s: string, sep: char): (r: seq<string>)
    ensures r != []
    ensures forall i | 0 <= i < |r| :: sep !in r[i]
    decreases |s|
  {
    if sep in s then
      var k := IndexOf(s, sep);
      [s[..k]] + Split(s[k + 1..], sep)
    else
      [s]
  }

  /** There is one more piece than there are separators. */
  lemma {:induction false} SplitCount(s: string, sep: char)
    ensures |Split(s, sep)| == multiset(s)[sep] + 1
    decreases |s|
  {
    if sep in s {
      var k := IndexOf(s, sep);
      CountAfterFirst(s, k, sep);
      SplitCount(s[k + 1..], sep);
    } else {
      assert multiset(s)[sep] == 0;
    }
  }

  /** Past its first occurrence, a character occurs once fewer. */
  lemma {:induction false} CountAfterFirst(s: string, k: nat, c: char)
    requires k < |s| && s[k] == c && c !in s[..k]
    ensures multiset(s[k + 1..])[c] + 1 == multiset(s)[c]
  {
    assert s == s[..k] + [c] + s[k + 1..];
    assert multiset(s) == multiset(s[..k]) + multiset([c]) + multiset(s[k + 1..]);
    assert multiset(s[..k])[c] == 0;
  }

  /** `sep.join(parts)`. */
  function Join(sep: string, parts: seq<string>): (r: string)
    ensures forall i | 0 <= i < |parts| :: |parts[i]| <= |r|
  {
    if parts == [] then []
    else if |parts| == 1 then parts[0]
    else
      var rest := Join(sep, parts[1..]);
      assert forall i | 1 <= i < |parts| :: parts[i] == parts[1..][i - 1];
      parts[0] + sep + rest
  }

  /** Joining the pieces of a split with the separator gives back the text. */
  lemma {:induction false} JoinSplit(s: string, sep: char)
    ensures Join([sep], Split(s, sep)) == s
    decreases |s|
  {
    if sep in s {
      var k := IndexOf(s, sep);
      var rest := Split(s[k + 1..], sep);
      assert Split(s, sep) == [s[..k]] + rest;
      JoinCons([sep], s[..k], rest);
      JoinSplit(s[k + 1..], sep);
      assert s == s[..k] + [sep] + s[k + 1..];
    }
  }

  /** Joining a part in front of further parts puts the separator between. */
  lemma {:induction false} JoinCons(sep: string, a: string, ws: seq<string>)
    requires ws != []
    ensures Join(sep, [a] + ws) == a + sep + Join(sep, ws)
  {
    assert ([a] + ws)[1..] == ws;
  }

  /** Splitting at a first separator: the text before it is the first piece. */
  lemma {:induction false} SplitAt(a: string, sep: char, b: string)
    requires sep !in a
    ensures Split(a + [sep] + b, sep) == [a] + Split(b, sep)
  {
    var s := a + [sep] + b;
    var k := IndexOf(s, sep);
    assert forall j | 0 <= j < |a| :: s[j] == a[j] && s[j] != sep;
    assert s[|a|] == sep;
    assert s[..k] == a && s[k + 1..] == b;
  }

  /** A join of non-empty parts starts with the first part's first character
      and ends with the last part's last character. */
  lemma {:induction false} JoinEnds(sep: string, parts: seq<string>)
    requires forall i | 0 <= i < |parts| :: parts[i] != []
    ensures parts != [] ==> var j := Join(sep, parts); j != [] && j[0] == parts[0][0] && j[|j| - 1] == parts[|parts| - 1][|parts[|parts| - 1]| - 1]
    decreases |parts|
  {
    if |parts| > 1 {
      var tail := parts[1..];
      assert forall i | 0 <= i < |tail| :: tail[i] == parts[i + 1];
      JoinEnds(sep, tail);
      var rest := Join(sep, tail);
      assert Join(sep, parts) == parts[0] + sep + rest;
      assert tail[|tail| - 1] == parts[|parts| - 1];
    }
  }

  // ---------- split() on whitespace ----------

  /** Length of the run of non-whitespace characters that starts `s`. */
  function WordLen(s: string): (n: nat)
    ensures n <= |s|
    ensures forall i | 0 <= i < n :: !IsSpace(s[i])
    ensures n < |s| ==> IsSpace(s[n])
  {
    if s == [] || IsSpace(s[0]) then 0 else 1 + WordLen(s[1..])
  }

  /** `s.split()`: the maximal runs of non-whitespace characters of `s`, in order. */
  function Words(s: string): (r: seq<string>)
    ensures |r| <= |s|
    ensures forall i | 0 <= i < |r| :: r[i] != [] && forall j | 0 <= j < |r[i]| :: !IsSpace(r[i][j])
    decreases |s|
  {
    if s == [] then []
    else if IsSpace(s[0]) then Words(s[1..])
    else
      var n := WordLen(s);
      [s[..n]] + Words(s[n..])
  }

  /** Leading whitespace adds no word. */
  lemma {:induction false} WordsBlankPrefix(w: string, x: string)
    requires Blank(w)
    ensures Words(w + x) == Words(x)
    decreases |w|
  {
    if w == [] {
      assert w + x == x;
    } else {
      assert (w + x)[1..] == w[1..] + x;
      WordsBlankPrefix(w[1..], x);
    }
  }

  /** Whitespace after a word does not lengthen it. */
  lemma {:induction false} WordLenBlankSuffix(x: string, w: string)
    requires Blank(w)
    ensures WordLen(x + w) == WordLen(x)
    decreases |x|
  {
    if x == [] {
      assert x + w == w;
    } else if !IsSpace(x[0]) {
      assert (x + w)[1..] == x[1..] + w;
      WordLenBlankSuffix(x[1..], w);
    }
  }

  /** Trailing whitespace adds no word. */
  lemma {:induction false} WordsBlankSuffix(x: string, w: string)
    requires Blank(w)
    ensures Words(x + w) == Words(x)
    decreases |x|
  {
    if x == [] {
      assert x + w == w;
      WordsBlankPrefix(w, []);
      assert w + [] == w;
    } else if IsSpace(x[0]) {
      assert (x + w)[1..] == x[1..] + w;
      WordsBlankSuffix(x[1..], w);
    } else {
      var n := WordLen(x);
      WordLenBlankSuffix(x, w);
      assert (x + w)[..n] == x[..n];
      assert (x + w)[n..] == x[n..] + w;
      WordsBlankSuffix(x[n..], w);
    }
  }

  /** `s.strip()` has the same words as `s`. */
  lemma {:induction false} WordsStrip(s: string)
    ensures Words(Strip(s)) == Words(s)
  {
    var r := Strip(s);
    var w, v := StripCharsParts(s, Whitespace);
    assert s == w + (r + v);
    WordsBlankPrefix(w, r + v);
    WordsBlankSuffix(r, v);
  }

  /** A non-whitespace character in front of a text starts its first word, or
      is a word of its own when the text starts with whitespace. */
  lemma {:induction false} WordsCons(c: char, y: string)
    requires !IsSpace(c)
    ensures y != [] && !IsSpace(y[0]) ==> Words(y) != [] && Words([c] + y) == [[c] + Words(y)[0]] + Words(y)[1..]
    ensures y == [] || IsSpace(y[0]) ==> Words([c] + y) == [[c]] + Words(y)
  {
    var s := [c] + y;
    assert s[1..] == y;
    var n := WordLen(y);
    assert WordLen(s) == 1 + n;
    assert s[..1 + n] == [c] + y[..n];
    assert s[1 + n..] == y[n..];
    if y == [] || IsSpace(y[0]) {
      assert y[..0] == [] && y[0..] == y;
    }
  }

  // ---------- replace and lower ----------

  /** `s.replace(pat, rep)` for a non-empty `pat`: occurrences are found left to
      right and replaced without overlapping. */
  function Replace(s: string, pat: string, rep: string): (r: string)
    requires pat != []
    ensures |pat| == |rep| ==> |r| == |s|
    decreases |s|
  {
    if s == [] then []
    else if StartsWith(s, pat) then rep + Replace(s[|pat|..], pat, rep)
    else [s[0]] + Replace(s[1..], pat, rep)
  }

  /** A text in which `pat` does not occur is left unchanged. */
  lemma {:induction false} ReplaceAbsent(s: string, pat: string, rep: string)
    requires pat != [] && !Contains(s, pat)
    ensures Replace(s, pat, rep) == s
    decreases |s|
  {
    if s != [] {
      assert !StartsWith(s[0..], pat);
      assert s[0..] == s;
      assert !Contains(s[1..], pat) by {
        forall i | 0 <= i <= |s[1..]| - |pat|
          ensures !StartsWith(s[1..][i..], pat)
        {
          assert s[1..][i..] == s[i + 1..];
        }
      }
      ReplaceAbsent(s[1..], pat, rep);
    }
  }

  /** The first occurrence of `pat` is the one replaced, and replacement goes on
      after it: when no occurrence starts inside `x`, the text `x + pat + y`
      becomes `x + rep` followed by the replacement of `y`. */
  lemma {:induction false} ReplaceFirst(x: string, pat: string, y: string, rep: string)
    requires pat != []
    requires forall i | 0 <= i < |x| :: !StartsWith((x + pat + y)[i..], pat)
    ensures Replace(x + pat + y, pat, rep) == x + rep + Replace(y, pat, rep)
    decreases |x|
  {
    var s := x + pat + y;
    if x == [] {
      assert s == pat + y && s[|pat|..] == y;
    } else {
      assert !StartsWith(s, pat) by {
        assert s[0..] == s;
      }
      assert s[1..] == x[1..] + pat + y;
      assert Replace(s, pat, rep) == [x[0]] + Replace(x[1..] + pat + y, pat, rep);
      NoMatchTail(x, pat, y);
      ReplaceFirst(x[1..], pat, y, rep);
      assert [x[0]] + x[1..] == x;
    }
  }

  /** No match starting inside `x` stays true after dropping `x`'s first character. */
  lemma {:induction false} NoMatchTail(x: string, pat: string, y: string)
    requires x != []
    requires forall i | 0 <= i < |x| :: !StartsWith((x + pat + y)[i..], pat)
    ensures forall i | 0 <= i < |x[1..]| :: !StartsWith((x[1..] + pat + y)[i..], pat)
  {
    var s := x + pat + y;
    forall i | 0 <= i < |x[1..]|
      ensures !StartsWith((x[1..] + pat + y)[i..], pat)
    {
      assert (x[1..] + pat + y)[i..] == s[i + 1..];
    }
  }

  /** Replacing one character by another changes exactly the positions that
      held it. */
  lemma {:induction false} ReplaceChar(s: string, a: char, b: char)
    ensures |Replace(s, [a], [b])| == |s|
    ensures forall i | 0 <= i < |s| :: Replace(s, [a], [b])[i] == if s[i] == a then b else s[i]
    decreases |s|
  {
    if s != [] {
      ReplaceChar(s[1..], a, b);
      assert StartsWith(s, [a]) <==> s[0] == a;
    }
  }

  function LowerChar(c: char): (r: char)
    ensures !IsUpper(r)
    ensures IsAlnum(r) <==> IsAlnum(c)
  {
    if IsUpper(c) then (c as int + 32) as char else c
  }

  /** `s.lower()` on ASCII letters; other characters are kept. */
  function Lower(s: string): (r: string)
    ensures |r| == |s|
    ensures forall i | 0 <= i < |s| :: r[i] == LowerChar(s[i])
  {
    seq(|s|, i requires 0 <= i < |s| => LowerChar(s[i]))
  }

  // ---------- filtering by truth value ----------

  /** `[k for k in ks if k]` over optional strings: the present, non-empty
      values, in order. */
  function KeepTrue(ks: seq<Option<string>>): (r: seq<string>)
    ensures |r| <= |ks|
    ensures forall i | 0 <= i < |r| :: r[i] != []
  {
    if ks == [] then []
    else (if ks[0].Some? && ks[0].value != [] then [ks[0].value] else []) + KeepTrue(ks[1..])
  }

  lemma {:induction false} KeepTrueConcat(a: seq<Option<string>>, b: seq<Option<string>>)
    ensures KeepTrue(a + b) == KeepTrue(a) + KeepTrue(b)
  {
    if a != [] {
      KeepTrueConcat(a[1..], b);
      assert (a + b)[1..] == a[1..] + b;
    } else {
      assert a + b == b;
    }
  }

  /** Every value kept is one of the inputs. */
  lemma {:induction false} KeepTrueFrom(ks: seq<Option<string>>)
    ensures forall i | 0 <= i < |KeepTrue(ks)| :: Some(KeepTrue(ks)[i]) in ks
  {
    if ks != [] {
      KeepTrueFrom(ks[1..]);
      assert forall k | k in ks[1..] :: k in ks;
    }
  }

  /** A single value is kept exactly when it is present and non-empty. */
  lemma {:induction false} KeepTrueOne(k: Option<string>)
    ensures KeepTrue([k]) == if k.Some? && k.value != [] then [k.value] else []
  {
    assert [k][1..] == [];
  }

  /** Values that are all present and non-empty are all kept, in order. */
  lemma {:induction false} KeepTrueSomes(ss: seq<string>, ks: seq<Option<string>>)
    requires |ks| == |ss|
    requires forall i | 0 <= i < |ss| :: ss[i] != [] && ks[i] == Some(ss[i])
    ensures KeepTrue(ks) == ss
    decreases |ss|
  {
    if ss != [] {
      KeepTrueSomes(ss[1..], ks[1..]);
      assert [ss[0]] + ss[1..] == ss;
    }
  }
}
