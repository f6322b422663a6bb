/** The handful of Python `str` and `list` operations the normaliser is built
    from, with Python's semantics: `split`/`join`/`replace`/`count` with a
    non-empty separator, `in`, `strip()`, `lower()`/`upper()` on ASCII
    letters, `sorted()` and `[::-1]`. */
module PyStr {

  /** A Python value that is either a `str` or `None`. */
  datatype Option<T> = None | Some(value: T)

  /** `str.isspace()` for one character; `strip()` removes these and the
      regular-expression class `\s` matches them. */
  predicate IsSpace(c: char) {
    ('\t' <= c <= '\r') || ('\U{001C}' <= c <= ' ') || c == '\U{0085}' || c == '\U{00A0}'
    || c == '\U{1680}' || ('\U{2000}' <= c <= '\U{200A}') || c == '\U{2028}' || c == '\U{2029}'
    || c == '\U{202F}' || c == '\U{205F}' || c == '\U{3000}'
  }

  predicate IsDigit(c: char) { '0' <= c <= '9' }
  predicate IsUpper(c: char) { 'A' <= c <= 'Z' }
  predicate IsLower(c: char) { 'a' <= c <= 'z' }
  predicate IsAsciiLetter(c: char) { IsUpper(c) || IsLower(c) }

  /** `str(v)` for a field value: `None` prints as "None". */
  function Str(v: Option<string>): string {
    if v.Some? then v.value else "None"
  }

  /** `sub in s` */
  predicate Contains(s: string, sub: string)
    decreases |s|
  {
    sub <= s || (|s| > 0 && Contains(s[1..], sub))
  }

  predicate EndsWith(s: string, suffix: string) {
    |suffix| <= |s| && s[|s| - |suffix|..] == suffix
  }

  /** `s.split(sep)`: the pieces between the non-overlapping occurrences of
      `sep`, found left to right. */
  function Split(s: string, sep: string): (r: seq<string>)
    requires |sep| > 0
    ensures |r| >= 1
    decreases |s|
  {
    if sep <= s then [""] + Split(s[|sep|..], sep)
    else if s == [] then [[]]
    else
      var t := Split(s[1..], sep);
      [[s[0]] + t[0]] + t[1..]
  }

  /** `sep.join(parts)` */
  function Join(parts: seq<string>, sep: string): string {
    if |parts| == 0 then ""
    else if |parts| == 1 then parts[0]
    else parts[0] + sep + Join(parts[1..], sep)
  }

  /** `s.replace(pat, repl)`, which Python defines as `repl.join(s.split(pat))`
      when `pat` is not empty. */
  function Replace(s: string, pat: string, repl: string): string
    requires |pat| > 0
  {
    Join(Split(s, pat), repl)
  }

  /** `s.count(sub)`: the number of non-overlapping occurrences. */
  function Count(s: string, sub: string): nat
    requires |sub| > 0
  {
    |Split(s, sub)| - 1
  }

  /** `s[:n]` for a non-negative `n`. */
  function Take(s: string, n: nat): string {
    if n <= |s| then s[..n] else s
  }

  /** `s.lstrip()` */
  function LStrip(s: string): (r: string)
    ensures |r| <= |s|
    decreases |s|
  {
    if |s| > 0 && IsSpace(s[0]) then LStrip(s[1..]) else s
  }

  /** `s.rstrip()` */
  function RStrip(s: string): (r: string)
    ensures |r| <= |s|
    decreases |s|
  {
    if |s| > 0 && IsSpace(s[|s| - 1]) then RStrip(s[..|s| - 1]) else s
  }

  /** `s.strip()` */
  function Strip(s: string): string {
    RStrip(LStrip(s))
  }

  function LowerChar(c: char): char {
    if IsUpper(c) then (c as int + 32) as char else c
  }

  function UpperChar(c: char): char {
    if IsLower(c) then (c as int - 32) as char else c
  }

  /** `s.lower()`, on ASCII letters. */
  function Lower(s: string): (r: string)
    ensures |r| == |s|
  {
    seq(|s|, i requires 0 <= i < |s| => LowerChar(s[i]))
  }

  /** `s` with every character of `cs` removed (`str.translate` with a deleting table). */
  function Without(s: string, cs: set<char>): string {
    if s == [] then []
    else (if s[0] in cs then [] else [s[0]]) + Without(s[1..], cs)
  }

  /** Python's ordering of `str` values: code point by code point, a proper
      prefix first. */
  predicate LexLe(a: string, b: string)
    decreases |a|
  {
    |a| == 0 || (|b| > 0 && (a[0] < b[0] || (a[0] == b[0] && LexLe(a[1..], b[1..]))))
  }

  predicate SortedLex(xs: seq<string>) {
    forall i, j :: 0 <= i < j < |xs| ==> LexLe(xs[i], xs[j])
  }

  function Insert(x: string, xs: seq<string>): seq<string> {
    if xs == [] then [x]
    else if LexLe(x, xs[0]) then [x] + xs
    else [xs[0]] + Insert(x, xs[1..])
  }

  /** `sorted(xs)` (and `xs.sort()`) for a list of `str`. */
  function Sorted(xs: seq<string>): seq<string> {
    if xs == [] then [] else Insert(xs[0], Sorted(xs[1..]))
  }

  /** `xs[::-1]` */
  function Reverse<T>(xs: seq<T>): (r: seq<T>)
    ensures |r| == |xs|
    ensures forall i :: 0 <= i < |xs| ==> r[i] == xs[|xs| - 1 - i]
  {
    if xs == [] then [] else Reverse(xs[1..]) + [xs[0]]
  }

  /** Reversal keeps every element and its multiplicity. */
  lemma {:induction false} ReversePermutes<T>(xs: seq<T>)
    ensures multiset(Reverse(xs)) == multiset(xs)
    decreases |xs|
  {
    if xs != [] {
      ReversePermutes(xs[1..]);
      assert xs == [xs[0]] + xs[1..];
    }
  }

  // ----- split, join, replace, count -----

  /** Joining the pieces again with the separator gives back the string. */
  lemma {:induction false} SplitJoin(s: string, sep: string)
    requires |sep| > 0
    ensures Join(Split(s, sep), sep) == s
    decreases |s|
  {
    if sep <= s {
      var rest := s[|sep|..];
      SplitJoin(rest, sep);
      SplitAtSep(s, sep);
      PrefixRest(s, sep);
      JoinCons("", Split(rest, sep), sep);
    } else if s != [] {
      SplitJoin(s[1..], sep);
      SplitPastHead(s, sep);
      JoinExtendHead(s[0], Split(s[1..], sep), sep);
      assert s == [s[0]] + s[1..];
    }
  }

  lemma SplitAtSep(s: string, sep: string)
    requires |sep| > 0 && sep <= s
    ensures Split(s, sep) == [""] + Split(s[|sep|..], sep)
  {
  }

  lemma PrefixRest(s: string, sep: string)
    requires sep <= s
    ensures s == "" + sep + s[|sep|..]
  {
    assert s == sep + s[|sep|..];
  }

  lemma SplitPastHead(s: string, sep: string)
    requires |sep| > 0 && !(sep <= s) && s != []
    ensures Split(s, sep) == [[s[0]] + Split(s[1..], sep)[0]] + Split(s[1..], sep)[1..]
  {
  }

  lemma JoinCons(p: string, t: seq<string>, sep: string)
    requires |t| >= 1
    ensures Join([p] + t, sep) == p + sep + Join(t, sep)
  {
    assert ([p] + t)[1..] == t;
  }

  lemma JoinExtendHead(c: char, t: seq<string>, sep: string)
    requires |t| >= 1
    ensures Join([[c] + t[0]] + t[1..], sep) == [c] + Join(t, sep)
  {
    var r := [[c] + t[0]] + t[1..];
    if |t| > 1 {
      assert r[1..] == t[1..];
    }
  }

  /** The first piece is a prefix of the string. */
  lemma {:induction false} SplitHeadPrefix(s: string, sep: string)
    requires |sep| > 0
    ensures Split(s, sep)[0] <= s
    decreases |s|
  {
    if sep <= s {
    } else if s == [] {
    } else {
      SplitHeadPrefix(s[1..], sep);
    }
  }

  /** The first piece ends at the end of the string or where a separator starts. */
  lemma {:induction false} SplitHeadEnds(s: string, sep: string)
    requires |sep| > 0
    ensures var h := Split(s, sep)[0]; |h| <= |s| && (|h| == |s| || sep <= s[|h|..])
    decreases |s|
  {
    if sep <= s {
    } else if s != [] {
      SplitHeadEnds(s[1..], sep);
      var t := Split(s[1..], sep)[0];
      assert s[1..][|t|..] == s[|t| + 1..];
    }
  }

  /** No piece contains the separator: the scan cuts at the first occurrence. */
  lemma {:induction false} SplitPiecesAvoidSep(s: string, sep: string)
    requires |sep| > 0
    ensures forall i :: 0 <= i < |Split(s, sep)| ==> !Contains(Split(s, sep)[i], sep)
    decreases |s|
  {
    if sep <= s {
      SplitPiecesAvoidSep(s[|sep|..], sep);
      var t := Split(s[|sep|..], sep);
      assert Split(s, sep) == [""] + t;
      assert !Contains("", sep);
    } else if s == [] {
      assert !Contains([], sep);
    } else {
      SplitPiecesAvoidSep(s[1..], sep);
      SplitHeadPrefix(s[1..], sep);
      var t := Split(s[1..], sep);
      var p := [s[0]] + t[0];
      assert p[1..] == t[0];
      assert !Contains(p, sep);
      assert Split(s, sep) == [p] + t[1..];
    }
  }

  /** `sub in s` exactly when splitting on it yields more than one piece. */
  lemma {:induction false} ContainsIffSplits(s: string, sep: string)
    requires |sep| > 0
    ensures Contains(s, sep) <==> |Split(s, sep)| > 1
    decreases |s|
  {
    if sep <= s {
    } else if s == [] {
    } else {
      ContainsIffSplits(s[1..], sep);
    }
  }

  /** `s.count(sub) == 0` exactly when `sub not in s`. */
  lemma CountZeroIff(s: string, sub: string)
    requires |sub| > 0
    ensures Count(s, sub) == 0 <==> !Contains(s, sub)
  {
    ContainsIffSplits(s, sub);
  }

  /** Replacing a text that does not occur changes nothing. */
  lemma ReplaceAbsent(s: string, pat: string, repl: string)
    requires |pat| > 0 && !Contains(s, pat)
    ensures Replace(s, pat, repl) == s
  {
    ContainsIffSplits(s, pat);
  }

  /** Replacing a text by itself changes nothing. */
  lemma ReplaceSelf(s: string, pat: string)
    requires |pat| > 0
    ensures Replace(s, pat, pat) == s
  {
    SplitJoin(s, pat);
  }

  /** A text without the separator is a single piece. */
  lemma SplitNoSep(s: string, sep: string)
    requires |sep| > 0 && !Contains(s, sep)
    ensures Split(s, sep) == [s]
  {
    ContainsIffSplits(s, sep);
    SplitJoin(s, sep);
  }

  /** When no occurrence starts inside `a`, the first cut is right after `a`. */
  lemma {:induction false} SplitFirst(a: string, sep: string, b: string)
    requires |sep| > 0 && !Contains(a + sep[..|sep| - 1], sep)
    ensures Split(a + sep + b, sep) == [a] + Split(b, sep)
    decreases |a|
  {
    var s := a + sep + b;
    if a == [] {
      assert s == sep + b;
      assert s[|sep|..] == b;
    } else {
      SplitFirstHead(a, sep, b);
      SplitFirst(a[1..], sep, b);
      assert s[1..] == a[1..] + sep + b;
      assert [s[0]] + a[1..] == a;
    }
  }

  lemma SplitFirstHead(a: string, sep: string, b: string)
    requires |sep| > 0 && a != [] && !Contains(a + sep[..|sep| - 1], sep)
    ensures !(sep <= a + sep + b) && !Contains(a[1..] + sep[..|sep| - 1], sep)
  {
    var s := a + sep + b;
    var h := a + sep[..|sep| - 1];
    assert s[..|sep|] == h[..|sep|];
    assert sep <= h ==> Contains(h, sep);
    assert h[1..] == a[1..] + sep[..|sep| - 1];
  }

  /** The summed length of some pieces. */
  function TotalLength(ps: seq<string>): nat {
    if ps == [] then 0 else |ps[0]| + TotalLength(ps[1..])
  }

  lemma {:induction false} JoinLength(ps: seq<string>, sep: string)
    requires |ps| >= 1
    ensures |Join(ps, sep)| == TotalLength(ps) + (|ps| - 1) * |sep|
    decreases |ps|
  {
    if |ps| > 1 {
      JoinLength(ps[1..], sep);
      assert (|ps| - 1) * |sep| == (|ps| - 2) * |sep| + |sep|;
    }
  }

  /** Each replaced occurrence trades the length of `pat` for that of `repl`. */
  lemma ReplaceLength(s: string, pat: string, repl: string)
    requires |pat| > 0
    ensures |Replace(s, pat, repl)| + Count(s, pat) * |pat| == |s| + Count(s, pat) * |repl|
  {
    SplitJoin(s, pat);
    JoinLength(Split(s, pat), pat);
    JoinLength(Split(s, pat), repl);
  }

  lemma MulMono(c: nat, x: nat, y: nat)
    requires c >= 1 && x < y
    ensures c * x < c * y
  {
    assert c * y == c * x + c * (y - x);
    assert c * (y - x) >= y - x by {
      assert c * (y - x) == (c - 1) * (y - x) + (y - x);
    }
  }

  /** A replacement by a text of another length changes the string exactly
      when the replaced text occurs; a longer one never shortens it. */
  lemma ReplaceChangesIff(s: string, pat: string, repl: string)
    requires |pat| > 0 && |pat| != |repl|
    ensures Replace(s, pat, repl) == s <==> !Contains(s, pat)
    ensures |repl| > |pat| ==> |Replace(s, pat, repl)| >= |s|
    ensures |repl| > |pat| && Contains(s, pat) ==> |Replace(s, pat, repl)| > |s|
  {
    ReplaceLength(s, pat, repl);
    CountZeroIff(s, pat);
    var c := Count(s, pat);
    if c >= 1 {
      if |pat| < |repl| { MulMono(c, |pat|, |repl|); } else { MulMono(c, |repl|, |pat|); }
    } else {
      ReplaceAbsent(s, pat, repl);
    }
    if |repl| > |pat| && c >= 1 { MulMono(c, |pat|, |repl|); }
  }

  // ----- erasing characters -----

  lemma {:induction false} WithoutConcat(a: string, b: string, cs: set<char>)
    ensures Without(a + b, cs) == Without(a, cs) + Without(b, cs)
    decreases |a|
  {
    if a == [] {
      assert a + b == b;
    } else {
      WithoutConcat(a[1..], b, cs);
      var h := if a[0] in cs then [] else [a[0]];
      assert (a + b)[0] == a[0] && (a + b)[1..] == a[1..] + b;
      assert Without(a + b, cs) == h + Without(a[1..] + b, cs);
      assert Without(a, cs) == h + Without(a[1..], cs);
    }
  }

  lemma {:induction false} WithoutJoin(parts: seq<string>, a: string, b: string, cs: set<char>)
    requires Without(a, cs) == Without(b, cs)
    ensures Without(Join(parts, a), cs) == Without(Join(parts, b), cs)
    decreases |parts|
  {
    if |parts| > 1 {
      WithoutJoin(parts[1..], a, b, cs);
      WithoutConcat(parts[0] + a, Join(parts[1..], a), cs);
      WithoutConcat(parts[0], a, cs);
      WithoutConcat(parts[0] + b, Join(parts[1..], b), cs);
      WithoutConcat(parts[0], b, cs);
    }
  }

  /** The summed length of some pieces once the characters of `cs` are erased. */
  function TotalWithout(ps: seq<string>, cs: set<char>): nat {
    if ps == [] then 0 else |Without(ps[0], cs)| + TotalWithout(ps[1..], cs)
  }

  lemma {:induction false} WithoutJoinLength(ps: seq<string>, sep: string, cs: set<char>)
    requires |ps| >= 1
    ensures |Without(Join(ps, sep), cs)| == TotalWithout(ps, cs) + (|ps| - 1) * |Without(sep, cs)|
    decreases |ps|
  {
    if |ps| > 1 {
      WithoutJoinLength(ps[1..], sep, cs);
      WithoutConcat(ps[0] + sep, Join(ps[1..], sep), cs);
      WithoutConcat(ps[0], sep, cs);
      assert (|ps| - 1) * |Without(sep, cs)| == (|ps| - 2) * |Without(sep, cs)| + |Without(sep, cs)|;
    }
  }

  /** `ReplaceLength` for what is left once the characters of `cs` are erased. */
  lemma ReplaceWithoutLength(s: string, pat: string, repl: string, cs: set<char>)
    requires |pat| > 0
    ensures |Without(Replace(s, pat, repl), cs)| + Count(s, pat) * |Without(pat, cs)|
         == |Without(s, cs)| + Count(s, pat) * |Without(repl, cs)|
  {
    SplitJoin(s, pat);
    WithoutJoinLength(Split(s, pat), pat, cs);
    WithoutJoinLength(Split(s, pat), repl, cs);
  }

  /** A replacement whose old and new texts differ only in characters of `cs`
      leaves the string unchanged once those characters are erased. */
  lemma ReplaceKeepsErasure(s: string, pat: string, repl: string, cs: set<char>)
    requires |pat| > 0 && Without(pat, cs) == Without(repl, cs)
    ensures Without(Replace(s, pat, repl), cs) == Without(s, cs)
  {
    SplitJoin(s, pat);
    WithoutJoin(Split(s, pat), repl, pat, cs);
  }

  /** Erasing characters the text does not hold changes nothing. */
  lemma {:induction false} WithoutAbsent(s: string, cs: set<char>)
    requires forall k :: 0 <= k < |s| ==> s[k] !in cs
    ensures Without(s, cs) == s
    decreases |s|
  {
    if s != [] {
      WithoutAbsent(s[1..], cs);
    }
  }

  /** Erasure keeps only characters of the text that are not erased. */
  lemma {:induction false} WithoutChars(s: string, cs: set<char>)
    ensures forall c :: c in Without(s, cs) ==> c in s && c !in cs
    decreases |s|
  {
    if s != [] {
      WithoutChars(s[1..], cs);
      var h := if s[0] in cs then [] else [s[0]];
      assert Without(s, cs) == h + Without(s[1..], cs);
      forall c | c in Without(s, cs) ensures c in s && c !in cs {
        if c !in h {
          assert c in Without(s[1..], cs);
          assert c in s[1..];
        }
      }
    }
  }

  /** A character of the text is a one-character substring of it. */
  lemma {:induction false} CharContains(s: string, c: char)
    requires c in s
    ensures Contains(s, [c])
    decreases |s|
  {
    if s[0] != c {
      assert c in s[1..];
      CharContains(s[1..], c);
    }
  }

  /** No piece of a split on a character holds that character. */
  lemma SplitPiecesAvoidChar(s: string, c: char)
    ensures forall i :: 0 <= i < |Split(s, [c])| ==> c !in Split(s, [c])[i]
  {
    SplitPiecesAvoidSep(s, [c]);
    forall i | 0 <= i < |Split(s, [c])| ensures c !in Split(s, [c])[i] {
      if c in Split(s, [c])[i] {
        CharContains(Split(s, [c])[i], c);
      }
    }
  }

  /** Joining pieces and a separator that avoid a character avoids it too. */
  lemma {:induction false} JoinAvoids(parts: seq<string>, sep: string, c: char)
    requires c !in sep && forall i :: 0 <= i < |parts| ==> c !in parts[i]
    ensures c !in Join(parts, sep)
    decreases |parts|
  {
    if |parts| > 1 {
      JoinAvoids(parts[1..], sep, c);
    }
  }

  /** A prefix holds only characters of the text. */
  lemma PrefixChars(p: string, s: string)
    requires p <= s
    ensures forall c :: c in p ==> c in s
  {
    forall c | c in p ensures c in s {
      var k :| 0 <= k < |p| && p[k] == c;
      assert s[k] == c;
    }
  }

  // ----- strip -----

  /** `lstrip()` leaves a suffix that does not start with white space. */
  lemma {:induction false} LStripSuffix(s: string)
    ensures var r := LStrip(s); |r| <= |s| && r == s[|s| - |r|..] && (r == [] || !IsSpace(r[0]))
    decreases |s|
  {
    if |s| > 0 && IsSpace(s[0]) {
      LStripSuffix(s[1..]);
    }
  }

  /** `rstrip()` leaves a prefix that does not end with white space. */
  lemma {:induction false} RStripPrefix(s: string)
    ensures var r := RStrip(s); |r| <= |s| && r == s[..|r|] && (r == [] || !IsSpace(r[|r| - 1]))
    decreases |s|
  {
    if |s| > 0 && IsSpace(s[|s| - 1]) {
      RStripPrefix(s[..|s| - 1]);
    }
  }

  lemma SliceOfSuffix(s: string, l: string, r: string)
    requires |l| <= |s| && l == s[|s| - |l|..] && |r| <= |l| && r == l[..|r|]
    ensures var i := |s| - |l|; i + |r| <= |s| && r == s[i..i + |r|]
  {
  }

  /** `strip()` removes exactly the surrounding white space: what is left is
      a slice of the input that neither starts nor ends with white space. */
  lemma StripSlice(s: string)
    ensures var i, r := |s| - |LStrip(s)|, Strip(s);
      && i + |r| <= |s| && r == s[i..i + |r|]
      && (r == [] || (!IsSpace(r[0]) && !IsSpace(r[|r| - 1])))
  {
    var l := LStrip(s);
    var r := RStrip(l);
    LStripSuffix(s);
    RStripPrefix(l);
    SliceOfSuffix(s, l, r);
    if r != [] {
      assert r[0] == l[0];
    }
  }

  /** Text that neither starts nor ends with white space is its own `strip()`. */
  lemma StripClean(s: string)
    requires s == [] || (!IsSpace(s[0]) && !IsSpace(s[|s| - 1]))
    ensures Strip(s) == s
  {
  }

  /** A leading tab goes with `strip()`. */
  lemma StripTab(s: string)
    requires s == [] || (!IsSpace(s[0]) && !IsSpace(s[|s| - 1]))
    ensures Strip("\t" + s) == s
  {
    assert ("\t" + s)[1..] == s;
    assert LStrip("\t" + s) == LStrip(s) == s;
    assert RStrip(s) == s;
  }

  /** `c in s` as a one-character substring. */
  lemma {:induction false} ContainsChar(s: string, c: char)
    ensures Contains(s, [c]) ==> c in s
    decreases |s|
  {
    if [c] <= s {
      assert s[0] == c;
    } else if |s| > 0 {
      ContainsChar(s[1..], c);
      if c in s[1..] {
        var k :| 0 <= k < |s[1..]| && s[1..][k] == c;
        assert s[k + 1] == c;
      }
    }
  }

  /** A substring's characters are characters of the text. */
  lemma {:induction false} ContainsChars(s: string, sub: string)
    requires Contains(s, sub)
    ensures forall c :: c in sub ==> c in s
    decreases |s|
  {
    if sub <= s {
      PrefixChars(sub, s);
    } else {
      ContainsChars(s[1..], sub);
      forall c | c in s[1..] ensures c in s {
        var k :| 0 <= k < |s[1..]| && s[1..][k] == c;
        assert s[k + 1] == c;
      }
    }
  }

  predicate OccursAt(s: string, sub: string, i: nat) {
    i + |sub| <= |s| && s[i..i + |sub|] == sub
  }

  /** A substring occurs at some index. */
  lemma {:induction false} ContainsIndex(s: string, sub: string)
    requires Contains(s, sub)
    ensures exists i :: OccursAt(s, sub, i)
    decreases |s|
  {
    if sub <= s {
      assert OccursAt(s, sub, 0);
    } else {
      ContainsIndex(s[1..], sub);
      var i: nat :| OccursAt(s[1..], sub, i);
      assert s[i + 1..i + 1 + |sub|] == sub;
      assert OccursAt(s, sub, i + 1);
    }
  }

  /** When the separator's character at `k` is neither in `a` nor earlier in
      the separator, no occurrence starts inside `a`: `SplitFirst` applies. */
  lemma NoEarlySep(a: string, sep: string, k: nat)
    requires k < |sep| && sep[k] !in a && sep[k] !in sep[..k]
    ensures !Contains(a + sep[..|sep| - 1], sep)
  {
    var h := a + sep[..|sep| - 1];
    forall i: nat ensures !OccursAt(h, sep, i) {
      if i + |sep| <= |h| {
        assert h[i..i + |sep|][k] == h[i + k];
        if i + k < |a| {
          assert h[i + k] == a[i + k];
        } else {
          assert h[i + k] == sep[..k][i + k - |a|];
        }
      }
    }
    if Contains(h, sep) {
      ContainsIndex(h, sep);
    }
  }

  /** Replacing a character the text does not hold changes nothing. */
  lemma ReplaceAbsentChar(s: string, c: char, repl: string)
    requires c !in s
    ensures Replace(s, [c], repl) == s
  {
    ContainsChar(s, c);
    ReplaceAbsent(s, [c], repl);
  }

  /** Text without upper-case ASCII letters is its own `lower()`. */
  lemma LowerSame(s: string)
    requires forall k :: 0 <= k < |s| ==> !IsUpper(s[k])
    ensures Lower(s) == s
  {
  }

  // ----- ordering and sorting -----

  lemma {:induction false} LexLeTotal(a: string, b: string)
    ensures LexLe(a, b) || LexLe(b, a)
    decreases |a|
  {
    if |a| > 0 && |b| > 0 && a[0] == b[0] {
      LexLeTotal(a[1..], b[1..]);
    }
  }

  lemma {:induction false} LexLeTrans(a: string, b: string, c: string)
    requires LexLe(a, b) && LexLe(b, c)
    ensures LexLe(a, c)
    decreases |a|
  {
    if |a| > 0 && a[0] == b[0] && b[0] == c[0] {
      LexLeTrans(a[1..], b[1..], c[1..]);
    }
  }

  lemma {:induction false} LexLeAntisym(a: string, b: string)
    requires LexLe(a, b) && LexLe(b, a)
    ensures a == b
    decreases |a|
  {
    if |a| > 0 {
      LexLeAntisym(a[1..], b[1..]);
      assert a == [a[0]] + a[1..] && b == [b[0]] + b[1..];
    }
  }

  /** Every element of `zs` is at least `y`. */
  predicate AllGe(y: string, zs: seq<string>) {
    forall k :: 0 <= k < |zs| ==> LexLe(y, zs[k])
  }

  lemma SortedCons(y: string, zs: seq<string>)
    requires AllGe(y, zs) && SortedLex(zs)
    ensures SortedLex([y] + zs)
  {
    var r := [y] + zs;
    forall i, j | 0 <= i < j < |r| ensures LexLe(r[i], r[j]) {
      if i > 0 { assert r[i] == zs[i - 1] && r[j] == zs[j - 1]; }
      else { assert r[j] == zs[j - 1]; }
    }
  }

  lemma {:induction false} InsertKeepsLowerBound(y: string, x: string, zs: seq<string>)
    requires AllGe(y, zs) && LexLe(y, x)
    ensures AllGe(y, Insert(x, zs))
    decreases |zs|
  {
    if zs != [] && !LexLe(x, zs[0]) {
      InsertKeepsLowerBound(y, x, zs[1..]);
    }
  }

  lemma {:induction false} InsertSorted(x: string, xs: seq<string>)
    requires SortedLex(xs)
    ensures SortedLex(Insert(x, xs))
    decreases |xs|
  {
    if xs == [] {
    } else if LexLe(x, xs[0]) {
      forall k | 0 <= k < |xs| ensures LexLe(x, xs[k]) {
        if k > 0 { LexLeTrans(x, xs[0], xs[k]); }
      }
      SortedCons(x, xs);
    } else {
      LexLeTotal(x, xs[0]);
      assert SortedLex(xs[1..]) by {
        forall i, j | 0 <= i < j < |xs[1..]| ensures LexLe(xs[1..][i], xs[1..][j]) {
          assert xs[1..][i] == xs[i + 1] && xs[1..][j] == xs[j + 1];
        }
      }
      assert AllGe(xs[0], xs[1..]) by {
        forall k | 0 <= k < |xs[1..]| ensures LexLe(xs[0], xs[1..][k]) {
          assert xs[1..][k] == xs[k + 1];
        }
      }
      InsertSorted(x, xs[1..]);
      InsertKeepsLowerBound(xs[0], x, xs[1..]);
      SortedCons(xs[0], Insert(x, xs[1..]));
    }
  }

  lemma {:induction false} InsertPermutes(x: string, xs: seq<string>)
    ensures multiset(Insert(x, xs)) == multiset(xs) + multiset{x}
    decreases |xs|
  {
    if xs != [] && !LexLe(x, xs[0]) {
      InsertPermutes(x, xs[1..]);
      assert xs == [xs[0]] + xs[1..];
    }
  }

  /** `sorted()` returns the same strings in non-decreasing order. */
  lemma {:induction false} SortedIsSortedPermutation(xs: seq<string>)
    ensures SortedLex(Sorted(xs))
    ensures multiset(Sorted(xs)) == multiset(xs)
    decreases |xs|
  {
    if xs != [] {
      SortedIsSortedPermutation(xs[1..]);
      InsertSorted(xs[0], Sorted(xs[1..]));
      InsertPermutes(xs[0], Sorted(xs[1..]));
      assert xs == [xs[0]] + xs[1..];
    }
  }
}
