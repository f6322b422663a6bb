/** The text rewrites the conform passes apply to single field values:
    the `re.sub` calls of bibtools.py written out as left-to-right scans
    (each match is replaced and the scan resumes after it), and the
    brace-wrapping of proper nouns and conference names. */
module Rewrites {
  import opened PyStr
  import BibPatterns

  const Braces: set<char> := {'{', '}'}

  /** `"{" + t + "}"` */
  function Braced(t: string): string { "{" + t + "}" }

  /** Some suffix of `s` starts with a match of the pattern that `at` recognises. */
  predicate MatchesSomewhere(s: string, at: string -> bool) {
    exists i :: 0 <= i < |s| && at(s[i..])
  }

  // ----- pages: ([0-9])-([0-9]) -> \1--\2 -----

  /** `[0-9]-[0-9]` at the start of the text. */
  predicate DashAt(t: string) {
    |t| >= 3 && IsDigit(t[0]) && t[1] == '-' && IsDigit(t[2])
  }

  function DashPages(s: string): string
    decreases |s|
  {
    if DashAt(s) then
      [s[0]] + "--" + [s[2]] + DashPages(s[3..])
    else if s == [] then []
    else [s[0]] + DashPages(s[1..])
  }

  // ----- titles -----

  /** The class `[:\.\?!]`. */
  predicate IsStop(c: char) { c == ':' || c == '.' || c == '?' || c == '!' }

  /** `([:\.\?!]) *([a-zA-Z])` replaced by the punctuation, " {{", the letter
      upper-cased and "}}". */
  function Subtitle(s: string): string
    decreases |s|
  {
    if s == [] then []
    else if IsStop(s[0]) then
      var j := BibPatterns.RunEnd(s, 1, BibPatterns.IsBlank);
      if j < |s| && IsAsciiLetter(s[j]) then
        [s[0]] + " " + Braced(Braced([UpperChar(s[j])])) + Subtitle(s[j + 1..])
      else [s[0]] + Subtitle(s[1..])
    else [s[0]] + Subtitle(s[1..])
  }

  /** `[:\.\?!] *[a-zA-Z]` at the start of the text. */
  predicate SubtitleAt(t: string) {
    |t| > 0 && IsStop(t[0])
    && var j := BibPatterns.RunEnd(t, 1, BibPatterns.IsBlank); j < |t| && IsAsciiLetter(t[j])
  }

  /** `([A-Z][a-z]*[A-Z]+)` replaced by the match in braces. */
  function InnerCapitals(s: string): string
    decreases |s|
  {
    if s == [] then []
    else if IsUpper(s[0]) then
      var j := BibPatterns.RunEnd(s, 1, IsLower);
      if j < |s| && IsUpper(s[j]) then
        var k := BibPatterns.RunEnd(s, j, IsUpper);
        Braced(s[..k]) + InnerCapitals(s[k..])
      else [s[0]] + InnerCapitals(s[1..])
    else [s[0]] + InnerCapitals(s[1..])
  }

  /** `[A-Z][a-z]*[A-Z]` at the start of the text. */
  predicate InnerAt(t: string) {
    |t| > 0 && IsUpper(t[0])
    && var j := BibPatterns.RunEnd(t, 1, IsLower); j < |t| && IsUpper(t[j])
  }

  /** ` [A-Z] ` at the start of the text. */
  predicate LoneAt(t: string) {
    |t| >= 3 && t[0] == ' ' && IsUpper(t[1]) && t[2] == ' '
  }

  /** ` ([A-Z]) ` replaced by " {{X}} ". */
  function LoneCapitals(s: string): string
    decreases |s|
  {
    if |s| >= 3 && s[0] == ' ' && IsUpper(s[1]) && s[2] == ' ' then
      " " + Braced(Braced([s[1]])) + " " + LoneCapitals(s[3..])
    else if s == [] then []
    else [s[0]] + LoneCapitals(s[1..])
  }

  /** The three substitutions of `conformtitles`, in order. */
  function ProtectTitle(s: string): string {
    LoneCapitals(InnerCapitals(Subtitle(s)))
  }

  // ----- names -----

  /** `[A-Z]\.[A-Z]` at the start of the text. */
  predicate InitialsAt(t: string) {
    |t| >= 3 && IsUpper(t[0]) && t[1] == '.' && IsUpper(t[2])
  }

  /** `([A-Z])\.([A-Z])` replaced by "\1. \2". */
  function InitialsSpace(s: string): string
    decreases |s|
  {
    if |s| >= 3 && IsUpper(s[0]) && s[1] == '.' && IsUpper(s[2]) then
      [s[0]] + ". " + [s[2]] + InitialsSpace(s[3..])
    else if s == [] then []
    else [s[0]] + InitialsSpace(s[1..])
  }

  /** ` ([A-Z]$)` replaced by " \1.": `$` matches at the end or before a final newline. */
  function TrailingInitial(s: string): string {
    if EndsWithInitial(s) then s + "."
    else if EndsWithInitialLine(s) then s[..|s| - 1] + ".\n"
    else s
  }

  /** ` [A-Z]` at the very end. */
  predicate EndsWithInitial(s: string) {
    |s| >= 2 && s[|s| - 2] == ' ' && IsUpper(s[|s| - 1])
  }

  /** ` [A-Z]` just before a final newline. */
  predicate EndsWithInitialLine(s: string) {
    |s| >= 3 && s[|s| - 1] == '\n' && s[|s| - 3] == ' ' && IsUpper(s[|s| - 2])
  }

  function ConformInitials(s: string): string {
    TrailingInitial(InitialsSpace(s))
  }

  /** The three replacements of `correctampersand` on a name list. */
  function AmpersandToAnd(s: string): string {
    Replace(Replace(Replace(s, " & ", " and "), " \\& ", " and "), "  ", " ")
  }

  // ----- brace protection -----

  /** `s.replace(g, "{" + g + "}")` */
  function Wrap(s: string, g: string): string
    requires |g| > 0
  {
    Replace(s, g, Braced(g))
  }

  /** Each found word in turn is wrapped wherever it occurs in the current text. */
  function WrapAll(s: string, ws: seq<string>): string
    requires forall w :: w in ws ==> |w| > 0
    decreases |ws|
  {
    if ws == [] then s else WrapAll(Wrap(s, ws[0]), ws[1..])
  }

  /** The proper-noun protection of one title: the words are found in the
      original text, and each found word is wrapped in the text as it stands. */
  function ProtectNouns(nouns: seq<string>, s: string): string
  {
    WrapAll(s, BibPatterns.FindNouns(nouns, s, 0))
  }

  // ----- edition -----

  /** What Python's `int()` accepts from an already stripped string: an
      optional sign and decimal digits, single underscores allowed between
      digits. */
  predicate IsPyInt(e: string) {
    IsDigitGroups(Unsigned(e))
  }

  function Unsigned(e: string): string {
    if |e| > 0 && e[0] in "+-" then e[1..] else e
  }

  /** Digits and underscores, a digit first and last, every underscore right after a digit. */
  predicate IsDigitGroups(d: string) {
    && |d| > 0 && IsDigit(d[0]) && IsDigit(d[|d| - 1])
    && (forall k :: 0 <= k < |d| ==> IsDigit(d[k]) || d[k] == '_')
    && (forall k :: 0 < k < |d| && d[k] == '_' ==> IsDigit(d[k - 1]))
  }

  // ===== properties =====

  lemma WithoutOne(c: char, cs: set<char>)
    ensures Without([c], cs) == if c in cs then [] else [c]
  {
    assert [c][1..] == [];
  }

  lemma Without3(a: string, b: string, c: string, cs: set<char>)
    ensures Without(a + b + c, cs) == Without(a, cs) + Without(b, cs) + Without(c, cs)
  {
    WithoutConcat(a + b, c, cs);
    WithoutConcat(a, b, cs);
  }

  lemma BracedErasure(t: string)
    ensures Without(Braced(t), Braces) == Without(t, Braces)
  {
    Without3("{", t, "}", Braces);
    WithoutOne('{', Braces);
    WithoutOne('}', Braces);
  }

  /** Pages only gain dashes: with dashes erased, the value is unchanged. */
  lemma {:induction false} DashPagesOnlyAddsDashes(s: string)
    ensures Without(DashPages(s), {'-'}) == Without(s, {'-'})
    decreases |s|
  {
    var cs := {'-'};
    if |s| >= 3 && IsDigit(s[0]) && s[1] == '-' && IsDigit(s[2]) {
      DashPagesOnlyAddsDashes(s[3..]);
      WithoutConcat([s[0]] + "--" + [s[2]], DashPages(s[3..]), cs);
      Without3([s[0]], "--", [s[2]], cs);
      assert s == [s[0]] + "-" + [s[2]] + s[3..];
      WithoutConcat([s[0]] + "-" + [s[2]], s[3..], cs);
      Without3([s[0]], "-", [s[2]], cs);
      WithoutOne('-', cs);
      assert "--" == ['-'] + ['-'];
      WithoutConcat(['-'], ['-'], cs);
    } else if s != [] {
      DashPagesOnlyAddsDashes(s[1..]);
      WithoutConcat([s[0]], DashPages(s[1..]), cs);
      assert s == [s[0]] + s[1..];
      WithoutConcat([s[0]], s[1..], cs);
    }
  }

  /** A page range becomes an en-dash range. */
  lemma DashPagesRange()
    ensures DashPages("12-19") == "12--19"
  {
    assert DashPages("19") == "19";
    assert DashPages("2-19") == "2--19";
  }

  /** A run skips the number after a replaced range... */
  lemma DashPagesSkipsThird()
    ensures DashPages("1-2-3") == "1--2-3"
  {
    assert DashPages("-3") == "-3";
  }

  /** ...so a second run changes the text again: the pass is not idempotent. */
  lemma DashPagesNotIdempotent()
    ensures DashPages(DashPages("1-2-3")) == "1--2--3"
  {
    DashPagesSkipsThird();
    assert DashPages("2-3") == "2--3";
    assert DashPages("-2-3") == "-2--3";
    assert DashPages("--2-3") == "--2--3";
  }


  lemma WithoutSpacesRun(s: string, i: nat, j: nat, cs: set<char>)
    requires i <= j <= |s|
    requires ' ' in cs
    requires forall k :: i <= k < j ==> s[k] == ' '
    ensures Without(s[i..j], cs) == []
    decreases j - i
  {
    if i < j {
      assert s[i..j][1..] == s[i + 1..j];
      WithoutSpacesRun(s, i + 1, j, cs);
    }
  }

  lemma LowerConcat(a: string, b: string)
    ensures Lower(a + b) == Lower(a) + Lower(b)
  {
  }

  const TitleNoise: set<char> := {' ', '{', '}'}

  /** The title folded for comparison: letter case, spaces and braces ignored. */
  function TitleLetters(s: string): string {
    Without(Lower(s), TitleNoise)
  }

  lemma TitleLettersConcat(a: string, b: string)
    ensures TitleLetters(a + b) == TitleLetters(a) + TitleLetters(b)
  {
    LowerConcat(a, b);
    WithoutConcat(Lower(a), Lower(b), TitleNoise);
  }

  lemma TitleLettersChar(c: char)
    ensures TitleLetters([c]) == if c in TitleNoise then [] else [LowerChar(c)]
  {
    assert Lower([c]) == [LowerChar(c)];
    WithoutOne(LowerChar(c), TitleNoise);
  }

  lemma TitleLettersBraced(t: string)
    ensures TitleLetters(Braced(t)) == TitleLetters(t)
  {
    TitleLettersConcat("{" + t, "}");
    TitleLettersConcat("{", t);
    TitleLettersChar('{');
    TitleLettersChar('}');
  }

  lemma {:induction false} TitleLettersSpaces(t: string)
    requires forall k :: 0 <= k < |t| ==> t[k] == ' '
    ensures TitleLetters(t) == []
    decreases |t|
  {
    if t != [] {
      assert t == [t[0]] + t[1..];
      TitleLettersConcat([t[0]], t[1..]);
      TitleLettersChar(t[0]);
      TitleLettersSpaces(t[1..]);
    }
  }

  lemma SubtitleStep(p: char, gap: string, c: char, rest: string, rest': string)
    requires p !in TitleNoise && IsAsciiLetter(c)
    requires forall k :: 0 <= k < |gap| ==> gap[k] == ' '
    requires TitleLetters(rest') == TitleLetters(rest)
    ensures TitleLetters([p] + " " + Braced(Braced([UpperChar(c)])) + rest')
         == TitleLetters([p] + gap + [c] + rest)
  {
    TitleLettersConcat([p] + " " + Braced(Braced([UpperChar(c)])), rest');
    TitleLettersConcat([p] + " ", Braced(Braced([UpperChar(c)])));
    TitleLettersConcat([p], " ");
    TitleLettersChar(' ');
    TitleLettersBraced(Braced([UpperChar(c)]));
    TitleLettersBraced([UpperChar(c)]);
    TitleLettersChar(UpperChar(c));
    TitleLettersConcat([p] + gap + [c], rest);
    TitleLettersConcat([p] + gap, [c]);
    TitleLettersConcat([p], gap);
    TitleLettersSpaces(gap);
    TitleLettersChar(c);
  }

  /** The subtitle pass changes letter case, spaces and braces only. */
  lemma {:induction false} SubtitleKeepsLetters(s: string)
    ensures TitleLetters(Subtitle(s)) == TitleLetters(s)
    decreases |s|
  {
    if s != [] {
      var j := BibPatterns.RunEnd(s, 1, BibPatterns.IsBlank);
      if IsStop(s[0]) && j < |s| && IsAsciiLetter(s[j]) {
        SubtitleKeepsLetters(s[j + 1..]);
        assert s == [s[0]] + s[1..j] + [s[j]] + s[j + 1..];
        SubtitleStep(s[0], s[1..j], s[j], s[j + 1..], Subtitle(s[j + 1..]));
      } else {
        SubtitleKeepsLetters(s[1..]);
        TitleLettersConcat([s[0]], Subtitle(s[1..]));
        assert s == [s[0]] + s[1..];
        TitleLettersConcat([s[0]], s[1..]);
      }
    }
  }

  /** The inner-capitals pass only adds braces. */
  lemma {:induction false} InnerCapitalsOnlyAddsBraces(s: string)
    ensures Without(InnerCapitals(s), Braces) == Without(s, Braces)
    decreases |s|
  {
    if s != [] {
      var j := BibPatterns.RunEnd(s, 1, IsLower);
      if IsUpper(s[0]) && j < |s| && IsUpper(s[j]) {
        var k := BibPatterns.RunEnd(s, j, IsUpper);
        InnerCapitalsOnlyAddsBraces(s[k..]);
        WithoutConcat(Braced(s[..k]), InnerCapitals(s[k..]), Braces);
        BracedErasure(s[..k]);
        assert s == s[..k] + s[k..];
        WithoutConcat(s[..k], s[k..], Braces);
      } else {
        InnerCapitalsOnlyAddsBraces(s[1..]);
        WithoutConcat([s[0]], InnerCapitals(s[1..]), Braces);
        assert s == [s[0]] + s[1..];
        WithoutConcat([s[0]], s[1..], Braces);
      }
    }
  }

  /** The lone-capitals pass only adds braces. */
  lemma {:induction false} LoneCapitalsOnlyAddsBraces(s: string)
    ensures Without(LoneCapitals(s), Braces) == Without(s, Braces)
    decreases |s|
  {
    if |s| >= 3 && s[0] == ' ' && IsUpper(s[1]) && s[2] == ' ' {
      LoneCapitalsOnlyAddsBraces(s[3..]);
      WithoutConcat(" " + Braced(Braced([s[1]])) + " ", LoneCapitals(s[3..]), Braces);
      Without3(" ", Braced(Braced([s[1]])), " ", Braces);
      BracedErasure(Braced([s[1]]));
      BracedErasure([s[1]]);
      assert s == " " + [s[1]] + " " + s[3..];
      WithoutConcat(" " + [s[1]] + " ", s[3..], Braces);
      Without3(" ", [s[1]], " ", Braces);
    } else if s != [] {
      LoneCapitalsOnlyAddsBraces(s[1..]);
      WithoutConcat([s[0]], LoneCapitals(s[1..]), Braces);
      assert s == [s[0]] + s[1..];
      WithoutConcat([s[0]], s[1..], Braces);
    }
  }

  /** The whole title protection changes only letter case, spaces and braces. */
  lemma ProtectTitleKeepsLetters(s: string)
    ensures TitleLetters(ProtectTitle(s)) == TitleLetters(s)
  {
    SubtitleKeepsLetters(s);
    var a := Subtitle(s);
    InnerCapitalsOnlyAddsBraces(a);
    BracesInvisible(InnerCapitals(a), a);
    var b := InnerCapitals(a);
    LoneCapitalsOnlyAddsBraces(b);
    BracesInvisible(LoneCapitals(b), b);
  }

  lemma {:induction false} LowerWithoutBraces(s: string)
    ensures Without(Lower(Without(s, Braces)), TitleNoise) == TitleLetters(s)
    decreases |s|
  {
    if s != [] {
      LowerWithoutBraces(s[1..]);
      assert s == [s[0]] + s[1..];
      WithoutConcat([s[0]], s[1..], Braces);
      TitleLettersConcat([s[0]], s[1..]);
      TitleLettersChar(s[0]);
      WithoutOne(s[0], Braces);
      LowerConcat(Without([s[0]], Braces), Without(s[1..], Braces));
      WithoutConcat(Lower(Without([s[0]], Braces)), Lower(Without(s[1..], Braces)), TitleNoise);
      assert Lower([s[0]]) == [LowerChar(s[0])];
      WithoutOne(LowerChar(s[0]), TitleNoise);
    }
  }

  lemma BracesInvisible(a: string, b: string)
    requires Without(a, Braces) == Without(b, Braces)
    ensures TitleLetters(a) == TitleLetters(b)
  {
    LowerWithoutBraces(a);
    LowerWithoutBraces(b);
  }

  lemma {:induction false} SubtitleWithoutPunctuation(s: string)
    requires forall k :: 0 <= k < |s| ==> !IsStop(s[k])
    ensures Subtitle(s) == s
    decreases |s|
  {
    if s != [] {
      SubtitleWithoutPunctuation(s[1..]);
    }
  }

  lemma {:induction false} LoneCapitalsWithoutSpaces(s: string)
    requires forall k :: 0 <= k < |s| ==> s[k] != ' '
    ensures LoneCapitals(s) == s
    decreases |s|
  {
    if s != [] {
      LoneCapitalsWithoutSpaces(s[1..]);
    }
  }

  lemma InnerCapitalsAcronym()
    ensures InnerCapitals("ATR") == "{ATR}"
  {
    assert BibPatterns.RunEnd("ATR", 1, IsLower) == 1;
    assert BibPatterns.RunEnd("ATR", 3, IsUpper) == 3;
    assert BibPatterns.RunEnd("ATR", 2, IsUpper) == 3;
    assert BibPatterns.RunEnd("ATR", 1, IsUpper) == 3;
    assert InnerCapitals("") == "";
  }

  lemma InnerCapitalsAcronymClosed()
    ensures InnerCapitals("ATR}") == "{ATR}}"
  {
    assert BibPatterns.RunEnd("ATR}", 1, IsLower) == 1;
    assert BibPatterns.RunEnd("ATR}", 3, IsUpper) == 3;
    assert BibPatterns.RunEnd("ATR}", 2, IsUpper) == 3;
    assert BibPatterns.RunEnd("ATR}", 1, IsUpper) == 3;
    assert "ATR}"[..3] == "ATR" && "ATR}"[3..] == "}";
    assert InnerCapitals("}") == "}";
  }

  lemma InnerCapitalsBracedAcronym()
    ensures InnerCapitals("{ATR}") == "{{ATR}}"
  {
    InnerCapitalsAcronymClosed();
    assert "{ATR}"[1..] == "ATR}";
  }

  lemma ProtectTitleAcronym()
    ensures ProtectTitle("ATR") == "{ATR}"
  {
    SubtitleWithoutPunctuation("ATR");
    InnerCapitalsAcronym();
    LoneCapitalsWithoutSpaces("{ATR}");
  }

  /** Title protection is not idempotent: a second run braces an already
      protected acronym again. */
  lemma ProtectTitleNotIdempotent()
    ensures ProtectTitle(ProtectTitle("ATR")) == "{{ATR}}"
  {
    ProtectTitleAcronym();
    BracedAcronymHasNoStop();
    InnerCapitalsBracedAcronym();
    DoubleBracedAcronymHasNoLone();
  }

  lemma BracedAcronymHasNoStop()
    ensures Subtitle("{ATR}") == "{ATR}"
  {
    SubtitleWithoutPunctuation("{ATR}");
  }

  lemma DoubleBracedAcronymHasNoLone()
    ensures LoneCapitals("{{ATR}}") == "{{ATR}}"
  {
    LoneCapitalsWithoutSpaces("ATR}}");
    assert "{ATR}}"[1..] == "ATR}}";
    assert "{{ATR}}"[1..] == "{ATR}}";
  }


  /** A lone capital uses up the space after it, so the next lone capital
      is left unprotected. */
  lemma LoneCapitalsSkipsNeighbour()
    ensures LoneCapitals(" A B ") == " {{A}} B "
  {
    assert LoneCapitals(" ") == " ";
    assert LoneCapitals("B ") == "B ";
    assert " A B "[3..] == "B ";
  }

  /** Inserting a space between two initials loses nothing but that space. */
  lemma InitialsStep(a: char, b: char, rest: string, rest': string)
    requires Without(rest', {' '}) == Without(rest, {' '})
    ensures Without([a] + ". " + [b] + rest', {' '}) == Without([a] + "." + [b] + rest, {' '})
  {
    var cs := {' '};
    WithoutConcat([a] + ". " + [b], rest', cs);
    InitialsHead(a, b);
    WithoutConcat([a] + "." + [b], rest, cs);
  }

  lemma InitialsHead(a: char, b: char)
    ensures Without([a] + ". " + [b], {' '}) == Without([a] + "." + [b], {' '})
  {
    var cs := {' '};
    assert [a] + ". " + [b] == [a] + "." + " " + [b];
    WithoutConcat([a] + "." + " ", [b], cs);
    Without3([a], ".", " ", cs);
    WithoutOne(' ', cs);
    Without3([a], ".", [b], cs);
  }

  lemma {:induction false} InitialsSpaceOnlyAddsSpaces(s: string)
    ensures Without(InitialsSpace(s), {' '}) == Without(s, {' '})
    decreases |s|
  {
    if |s| >= 3 && IsUpper(s[0]) && s[1] == '.' && IsUpper(s[2]) {
      InitialsSpaceOnlyAddsSpaces(s[3..]);
      InitialsStep(s[0], s[2], s[3..], InitialsSpace(s[3..]));
      assert s == [s[0]] + "." + [s[2]] + s[3..];
    } else if s != [] {
      InitialsSpaceOnlyAddsSpaces(s[1..]);
      WithoutConcat([s[0]], InitialsSpace(s[1..]), {' '});
      assert s == [s[0]] + s[1..];
      WithoutConcat([s[0]], s[1..], {' '});
    }
  }


  /** Initials are spaced pairwise, so in a run of three the last pair stays joined. */
  lemma InitialsSpaceExample()
    ensures InitialsSpace("J.R.R.") == "J. R.R."
  {
    assert InitialsSpace(".") == ".";
    assert InitialsSpace("R.") == "R.";
    assert InitialsSpace(".R.") == ".R.";
    assert "J.R.R."[3..] == ".R.";
  }

  /** A final lone capital gains a period, at the end or before a final
      newline, and nothing else changes; the value changes exactly when it
      ends in such a capital. */
  lemma TrailingInitialAddsPeriod(s: string)
    ensures var r := TrailingInitial(s);
      && (r == s + "." <==> EndsWithInitial(s))
      && (|s| > 0 && r == s[..|s| - 1] + ".\n" <==> !EndsWithInitial(s) && EndsWithInitialLine(s))
      && (r == s <==> !EndsWithInitial(s) && !EndsWithInitialLine(s))
      && Without(r, {'.'}) == Without(s, {'.'})
  {
    TrailingInitialErasure(s);
    var r := TrailingInitial(s);
    if EndsWithInitial(s) {
      assert r[|r| - 1] == '.';
    } else if EndsWithInitialLine(s) {
      assert r[|r| - 1] == '\n' && (s + ".")[|s|] == '.';
    } else if |s| > 0 {
      assert |s[..|s| - 1] + ".\n"| == |s| + 1;
    }
  }

  lemma TrailingInitialErasure(s: string)
    ensures Without(TrailingInitial(s), {'.'}) == Without(s, {'.'})
  {
    if EndsWithInitial(s) {
      WithoutConcat(s, ".", {'.'});
    } else if EndsWithInitialLine(s) {
      assert s == s[..|s| - 1] + "\n";
      WithoutConcat(s[..|s| - 1], "\n", {'.'});
      WithoutConcat(s[..|s| - 1], ".\n", {'.'});
      WithoutOne('\n', {'.'});
      assert ".\n" == ['.'] + "\n";
      WithoutConcat(['.'], "\n", {'.'});
      WithoutOne('.', {'.'});
    }
  }

  /** Wrapping found words only adds braces, however often a word repeats. */
  lemma {:induction false} WrapAllOnlyAddsBraces(s: string, ws: seq<string>)
    requires forall w :: w in ws ==> |w| > 0 && Without(w, Braces) == w
    ensures Without(WrapAll(s, ws), Braces) == Without(s, Braces)
    decreases |ws|
  {
    if ws != [] {
      var w := ws[0];
      BracedErasure(w);
      ReplaceKeepsErasure(s, w, Braced(w), Braces);
      WrapAllOnlyAddsBraces(Wrap(s, w), ws[1..]);
    }
  }

  lemma FindNounTwice()
    ensures BibPatterns.FindNouns(["G"], "G G", 0) == ["G", "G"]
  {
    var s := "G G";
    var ns := ["G"];
    assert BibPatterns.FindNouns(ns, s, 3) == [];
    assert s[2..] == "G";
    assert BibPatterns.NounAt(ns, s, 2) == Some("G");
    assert BibPatterns.NounAt(ns, s, 1) == None;
    assert BibPatterns.NounAt(ns, s, 0) == Some("G");
  }

  lemma WrapNounOnce()
    ensures Wrap("G G", "G") == "{G} {G}"
  {
    assert Split("", "G") == [""];
    assert Split("G", "G") == ["", ""];
    assert " G"[1..] == "G";
    assert !("G" <= " G") by { assert " G"[0] != 'G'; }
    assert [" G"[0]] + "" == " ";
    assert Split(" G", "G") == [" ", ""];
    assert "G G"[1..] == " G";
    assert Split("G G", "G") == ["", " ", ""];
  }

  lemma SplitBracedNounEnd()
    ensures Split("} {G}", "G") == ["} {", "}"]
  {
    assert "}"[1..] == "";
    assert !("G" <= "}") by { assert "}"[0] != 'G'; }
    assert ["}"[0]] + "" == "}";
    assert Split("}", "G") == ["}"];
    assert Split("G}", "G") == ["", "}"];
    assert "{G}"[1..] == "G}";
    assert !("G" <= "{G}") by { assert "{G}"[0] != 'G'; }
    assert ["{G}"[0]] + "" == "{";
    assert Split("{G}", "G") == ["{", "}"];
    assert " {G}"[1..] == "{G}";
    assert !("G" <= " {G}") by { assert " {G}"[0] != 'G'; }
    assert [" {G}"[0]] + "{" == " {";
    assert Split(" {G}", "G") == [" {", "}"];
    assert "} {G}"[1..] == " {G}";
    assert !("G" <= "} {G}") by { assert "} {G}"[0] != 'G'; }
    assert ["} {G}"[0]] + " {" == "} {";
  }

  lemma SplitBracedNounTwice()
    ensures Split("{G} {G}", "G") == ["{", "} {", "}"]
  {
    SplitBracedNounEnd();
    assert "G} {G}"[1..] == "} {G}";
    assert Split("G} {G}", "G") == ["", "} {", "}"];
    assert "{G} {G}"[1..] == "G} {G}";
    assert !("G" <= "{G} {G}") by { assert "{G} {G}"[0] != 'G'; }
    assert ["{G} {G}"[0]] + "" == "{";
  }

  lemma WrapNounTwice()
    ensures Wrap("{G} {G}", "G") == "{{G}} {{G}}"
  {
    SplitBracedNounTwice();
    var ps: seq<string> := ["{", "} {", "}"];
    assert Wrap("{G} {G}", "G") == Join(ps, "{G}");
    assert ps[1..] == ["} {", "}"];
    assert Join(["} {", "}"], "{G}") == "} {" + "{G}" + "}";
    assert Join(ps, "{G}") == "{" + "{G}" + ("} {" + "{G}" + "}");
  }

  /** A proper noun that occurs twice is found twice, and each time all its
      occurrences are wrapped, so both end up in double braces. */
  lemma ProtectNounsRepeated()
    ensures ProtectNouns(["G"], "G G") == "{{G}} {{G}}"
  {
    FindNounTwice();
    WrapNounOnce();
    WrapNounTwice();
    assert ProtectNouns(["G"], "G G") == WrapAll("G G", ["G", "G"]);
    assert WrapAll("G G", ["G", "G"]) == WrapAll("{G} {G}", ["G"]);
  }

  /** Editions such as "2" or "+1_000" are accepted; "2nd" and "" are not. */
  lemma EditionExamples()
    ensures IsPyInt("2") && IsPyInt("+1_000") && IsPyInt("10")
    ensures !IsPyInt("2nd") && !IsPyInt("") && !IsPyInt("1__0") && !IsPyInt("_1")
  {
    assert Unsigned("+1_000") == "1_000";
    assert Unsigned("1__0") == "1__0";
    var d := "1__0";
    assert d[2] == '_' && !IsDigit(d[1]);
    assert Unsigned("2nd") == "2nd";
    assert "2nd"[2] == 'd';
    assert Unsigned("_1") == "_1";
    assert "_1"[0] == '_';
  }

  /** Every non-empty run of ASCII digits is an integer, and every integer
      consists of a sign, digits and underscores. */
  lemma PyIntDigits(e: string)
    ensures (|e| > 0 && forall k :: 0 <= k < |e| ==> IsDigit(e[k])) ==> IsPyInt(e)
    ensures IsPyInt(e) ==> forall k :: 0 <= k < |e| ==> IsDigit(e[k]) || e[k] == '_' || (k == 0 && e[k] in "+-")
  {
    if IsPyInt(e) {
      var d := Unsigned(e);
      var off := |e| - |d|;
      assert d == e[off..];
      forall k | 0 <= k < |e|
        ensures IsDigit(e[k]) || e[k] == '_' || (k == 0 && e[k] in "+-")
      {
        if k >= off {
          var i := k - off;
          assert e[k] == d[i];
        }
      }
    }
  }

  // ----- each scan changes the text exactly when its pattern occurs -----

  lemma MatchesSomewhereStep(s: string, at: string -> bool)
    requires s != []
    ensures MatchesSomewhere(s, at) <==> at(s) || MatchesSomewhere(s[1..], at)
  {
    assert s[0..] == s;
    if MatchesSomewhere(s, at) && !at(s) {
      var i :| 0 < i < |s| && at(s[i..]);
      assert s[1..][i - 1..] == s[i..];
    }
    if MatchesSomewhere(s[1..], at) {
      var i :| 0 <= i < |s[1..]| && at(s[1..][i..]);
      assert s[1..][i..] == s[i + 1..];
    }
  }

  lemma ConsSame(c: char, x: string, y: string)
    ensures [c] + x == [c] + y <==> x == y
  {
    if [c] + x == [c] + y {
      assert ([c] + x)[1..] == x && ([c] + y)[1..] == y;
    }
  }

  /** The pages pass leaves a value alone exactly when no digit-hyphen-digit occurs. */
  lemma {:induction false} DashPagesIff(s: string)
    ensures DashPages(s) == s <==> !MatchesSomewhere(s, DashAt)
    decreases |s|
  {
    if s != [] {
      MatchesSomewhereStep(s, DashAt);
      if DashAt(s) {
        assert DashPages(s)[2] == '-' != s[2];
      } else {
        DashPagesIff(s[1..]);
        assert s == [s[0]] + s[1..];
        ConsSame(s[0], DashPages(s[1..]), s[1..]);
      }
    }
  }

  /** The subtitle pass leaves a title alone exactly when no punctuation
      mark followed by spaces and a letter occurs. */
  lemma {:induction false} SubtitleIff(s: string)
    ensures Subtitle(s) == s <==> !MatchesSomewhere(s, SubtitleAt)
    decreases |s|
  {
    if s != [] {
      MatchesSomewhereStep(s, SubtitleAt);
      if SubtitleAt(s) {
        SubtitleChanges(s);
      } else {
        SubtitleIff(s[1..]);
        assert s == [s[0]] + s[1..];
        ConsSame(s[0], Subtitle(s[1..]), s[1..]);
      }
    }
  }

  lemma SubtitleChanges(s: string)
    requires s != [] && SubtitleAt(s)
    ensures Subtitle(s) != s
  {
    var j := BibPatterns.RunEnd(s, 1, BibPatterns.IsBlank);
    var r := Subtitle(s);
    assert r == [s[0]] + " " + Braced(Braced([UpperChar(s[j])])) + Subtitle(s[j + 1..]);
    if j == 1 {
      assert r[1] == ' ' != s[1];
    } else {
      assert r[2] == '{' != s[2];
    }
  }

  /** The inner-capitals pass leaves a title alone exactly when no capital,
      lower-case letters and a capital occur in a row. */
  lemma {:induction false} InnerCapitalsIff(s: string)
    ensures InnerCapitals(s) == s <==> !MatchesSomewhere(s, InnerAt)
    ensures |InnerCapitals(s)| >= |s|
    ensures MatchesSomewhere(s, InnerAt) ==> |InnerCapitals(s)| > |s|
    decreases |s|
  {
    if s != [] {
      MatchesSomewhereStep(s, InnerAt);
      if InnerAt(s) {
        var j := BibPatterns.RunEnd(s, 1, IsLower);
        var k := BibPatterns.RunEnd(s, j, IsUpper);
        InnerCapitalsIff(s[k..]);
        assert InnerCapitals(s)[0] == '{' != s[0];
      } else {
        InnerCapitalsIff(s[1..]);
        assert s == [s[0]] + s[1..];
        ConsSame(s[0], InnerCapitals(s[1..]), s[1..]);
      }
    }
  }

  /** The lone-capitals pass leaves a title alone exactly when no capital
      stands between two spaces. */
  lemma {:induction false} LoneCapitalsIff(s: string)
    ensures LoneCapitals(s) == s <==> !MatchesSomewhere(s, LoneAt)
    ensures |LoneCapitals(s)| >= |s|
    decreases |s|
  {
    if s != [] {
      MatchesSomewhereStep(s, LoneAt);
      if LoneAt(s) {
        LoneCapitalsIff(s[3..]);
        assert LoneCapitals(s)[1] == '{' != s[1];
      } else {
        LoneCapitalsIff(s[1..]);
        assert s == [s[0]] + s[1..];
        ConsSame(s[0], LoneCapitals(s[1..]), s[1..]);
      }
    }
  }

  /** The initials pass leaves a name alone exactly when no two initials
      are joined by a bare period. */
  lemma {:induction false} InitialsSpaceIff(s: string)
    ensures InitialsSpace(s) == s <==> !MatchesSomewhere(s, InitialsAt)
    ensures |InitialsSpace(s)| >= |s|
    ensures MatchesSomewhere(s, InitialsAt) ==> |InitialsSpace(s)| > |s|
    decreases |s|
  {
    if s != [] {
      MatchesSomewhereStep(s, InitialsAt);
      if InitialsAt(s) {
        InitialsSpaceIff(s[3..]);
        assert InitialsSpace(s)[2] == ' ' != s[2];
      } else {
        InitialsSpaceIff(s[1..]);
        assert s == [s[0]] + s[1..];
        ConsSame(s[0], InitialsSpace(s[1..]), s[1..]);
      }
    }
  }

  /** Without a subtitle match, the title protection leaves a title alone
      exactly when neither an inner-capitals run nor a lone capital occurs;
      in every case it changes only letter case, spaces and braces. */
  lemma ProtectTitleShape(s: string)
    ensures !MatchesSomewhere(s, SubtitleAt) ==>
      (ProtectTitle(s) == s <==> !MatchesSomewhere(s, InnerAt) && !MatchesSomewhere(s, LoneAt))
    ensures TitleLetters(ProtectTitle(s)) == TitleLetters(s)
  {
    ProtectTitleKeepsLetters(s);
    if !MatchesSomewhere(s, SubtitleAt) {
      SubtitleIff(s);
      InnerCapitalsIff(s);
      LoneCapitalsIff(InnerCapitals(s));
      if !MatchesSomewhere(s, InnerAt) {
        LoneCapitalsIff(s);
      }
    }
  }

  /** Wrapping never shortens the text, and wrapping a word that occurs
      lengthens it. */
  lemma {:induction false} WrapAllGrows(s: string, ws: seq<string>)
    requires forall w :: w in ws ==> |w| > 0
    ensures |WrapAll(s, ws)| >= |s|
    ensures ws != [] && Contains(s, ws[0]) ==> |WrapAll(s, ws)| > |s|
    decreases |ws|
  {
    if ws != [] {
      ReplaceChangesIff(s, ws[0], Braced(ws[0]));
      WrapAllGrows(Wrap(s, ws[0]), ws[1..]);
    }
  }

  /** Proper-noun protection leaves a title alone exactly when no noun of
      the vocabulary is found in it as a whole word. */
  lemma ProtectNounsIff(nouns: seq<string>, s: string)
    ensures ProtectNouns(nouns, s) == s <==> BibPatterns.FindNouns(nouns, s, 0) == []
  {
    var ws := BibPatterns.FindNouns(nouns, s, 0);
    WrapAllGrows(s, ws);
  }

  /** One replacement step of `correctampersand` on a name list removes one
      ampersand per occurrence it replaces. */
  lemma AmpersandsRemoved(s: string, pat: string, repl: string)
    requires |pat| > 0
    ensures var r := Replace(s, pat, repl);
      AmpCount(r) + Count(s, pat) * AmpCount(pat) == AmpCount(s) + Count(s, pat) * AmpCount(repl)
  {
    var amp: set<char> := {'&'};
    var c := Count(s, pat);
    ReplaceLength(s, pat, repl);
    ReplaceWithoutLength(s, pat, repl, amp);
    assert c * (|pat| - |Without(pat, amp)|) == c * |pat| - c * |Without(pat, amp)|;
    assert c * (|repl| - |Without(repl, amp)|) == c * |repl| - c * |Without(repl, amp)|;
  }

  lemma AmpersandPatterns()
    ensures AmpCount(" & ") == 1 && AmpCount(" \\& ") == 1
    ensures AmpCount(" and ") == 0 && AmpCount("  ") == 0 && AmpCount(" ") == 0
  {
  }

  /** The number of ampersands in `x`. */
  function AmpCount(x: string): int {
    |x| - |Without(x, {'&'})|
  }

  /** Replacing an ampersand pattern by an ampersand-free text removes one
      ampersand per occurrence. */
  lemma AmpersandStep(s: string, pat: string, repl: string)
    requires |pat| > 0 && AmpCount(pat) == 1 && AmpCount(repl) == 0
    ensures AmpCount(Replace(s, pat, repl)) + Count(s, pat) == AmpCount(s)
  {
    var c := Count(s, pat);
    AmpersandsRemoved(s, pat, repl);
    assert c * AmpCount(pat) == c && c * AmpCount(repl) == 0;
  }

  /** Collapsing double spaces keeps the ampersands. */
  lemma SpaceStep(s: string)
    ensures AmpCount(Replace(s, "  ", " ")) == AmpCount(s)
  {
    var c := Count(s, "  ");
    AmpersandPatterns();
    AmpersandsRemoved(s, "  ", " ");
    assert c * AmpCount("  ") == 0 && c * AmpCount(" ") == 0;
  }

  /** The name-list repair leaves a value alone exactly when none of " & ",
      " \\& " and a double space occurs in it: each ampersand replacement
      removes an ampersand, and no step adds one. */
  lemma AmpersandToAndIff(s: string)
    ensures AmpersandToAnd(s) == s <==> !Contains(s, " & ") && !Contains(s, " \\& ") && !Contains(s, "  ")
  {
    var a := Replace(s, " & ", " and ");
    var b := Replace(a, " \\& ", " and ");
    AmpersandPatterns();
    AmpersandStep(s, " & ", " and ");
    AmpersandStep(a, " \\& ", " and ");
    SpaceStep(b);
    CountZeroIff(s, " & ");
    CountZeroIff(a, " \\& ");
    if Count(s, " & ") == 0 {
      ReplaceAbsent(s, " & ", " and ");
      assert a == s;
      if Count(a, " \\& ") == 0 {
        ReplaceAbsent(a, " \\& ", " and ");
        assert b == s;
        ReplaceChangesIff(s, "  ", " ");
      }
    }
  }
}
