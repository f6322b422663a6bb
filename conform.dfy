/** The checks and corrections `Record.conform` applies to a record's fields
    (bibtools.py, `conform` and the methods it calls), each pass a function
    from the record state before it to the state after it. A pass that can
    let a Python exception escape returns an `Outcome`. */
module Conform {
  import opened PyStr
  import opened BibPatterns
  import opened Rewrites
  import opened FieldState

  /** What `conform` needs from outside the record: the proper nouns of
      PRESERVATIONPATTERN (language, country, ocean, continent and city
      names) and `asciify(dediacriticize(name))`. */
  datatype Vocabulary = Vocabulary(nouns: seq<string>, translit: string -> string)

  /** The nouns are words without braces. */
  predicate BraceFreeNouns(ns: seq<string>) {
    forall w :: w in ns ==> Without(w, Braces) == w
  }

  // The longer report texts, named once.
  const NoTitles: string := "neither title nor booktitle"
  const NoBooktitle: string := "{\\biberror{no booktitle}}"
  const EtAlText: string := "literal et al in  "
  const EtAlMarker: string := "\\biberror{et al}"
  const CommaText: string := "problem with commas in "
  const EditionText: string := "incorrect format for edition: "
  const UrldateAlone: string := "urldate without url"
  const RepositoryText: string := ": urls should only be given for true repositories or for material not available elsewhere"
  const NoPages: string := "{\\biberror{no pages}}"
  const BothCreators: string := "both author and editor"
  const NoCreator: string := "neither author nor editor"

  // ===== the opening steps of conform =====

  /** An edited record without a booktitle takes its title as booktitle. */
  function BackfillBooktitle(r: RecordState): RecordState {
    if Get(r, "editor").Some? && Get(r, "booktitle").None? then
      if "title" in r.vals then Put(r, "booktitle", r.vals["title"])
      else Err(r, NoTitles)
    else r
  }

  /** Only the booktitle can change: an edited record without one takes
      the title, or is reported when it has no title either. */
  lemma BackfillBooktitleCases(r: RecordState)
    ensures var r' := BackfillBooktitle(r);
      && (forall f :: f != "booktitle" ==> Get(r', f) == Get(r, f))
      && (Get(r, "editor").Some? && Get(r, "booktitle").None? && "title" in r.vals ==>
            Get(r', "booktitle") == Get(r, "title") && r'.errors == r.errors)
      && (Get(r, "editor").Some? && Get(r, "booktitle").None? && "title" !in r.vals ==>
            r'.errors == r.errors + [NoTitles])
      && ((Get(r, "editor").None? || Get(r, "booktitle").Some?) ==> r' == r)
  {
  }

  /** Page ranges get en-dashes. */
  function DashPagesPass(r: RecordState): RecordState {
    match Get(r, "pages")
    case Some(p) => Put(r, "pages", Some(DashPages(p)))
    case None => r
  }

  /** Only dashes are added to the pages: the numbers stay as they were, and
      the pages change exactly when a digit, a hyphen and a digit occur in a row. */
  lemma DashPagesPassKeepsNumbers(r: RecordState)
    ensures var r' := DashPagesPass(r);
      && (forall f :: f != "pages" ==> Get(r', f) == Get(r, f))
      && (Get(r', "pages").Some? <==> Get(r, "pages").Some?)
      && (Get(r, "pages").Some? ==> Without(Get(r', "pages").value, {'-'}) == Without(Get(r, "pages").value, {'-'}))
      && (Get(r, "pages").Some? ==> (Get(r', "pages") == Get(r, "pages") <==> !MatchesSomewhere(Get(r, "pages").value, DashAt)))
  {
    if Get(r, "pages").Some? {
      DashPagesOnlyAddsDashes(Get(r, "pages").value);
      DashPagesIff(Get(r, "pages").value);
    }
  }

  // ===== conformtitles =====

  function TitleStep(r: RecordState, t: string): RecordState {
    match Get(r, t)
    case Some(v) => Put(r, t, Some(ProtectTitle(v)))
    case None => r
  }

  /** The loop over `title` and `booktitle`. */
  function ConformTitles(r: RecordState): RecordState {
    TitleStep(TitleStep(r, "title"), "booktitle")
  }

  /** One title step changes only that title, and in it only case, spaces
      and braces; a title without a subtitle match changes exactly when an
      inner-capitals run or a lone capital occurs in it. */
  lemma TitleStepKeepsLetters(r: RecordState, t: string)
    ensures var r' := TitleStep(r, t);
      && (forall f :: f != t ==> Get(r', f) == Get(r, f))
      && (Get(r', t).Some? <==> Get(r, t).Some?)
      && (Get(r, t).Some? ==> TitleLetters(Get(r', t).value) == TitleLetters(Get(r, t).value))
      && (Get(r, t).Some? && !MatchesSomewhere(Get(r, t).value, SubtitleAt) ==>
            (Get(r', t) == Get(r, t) <==>
               !MatchesSomewhere(Get(r, t).value, InnerAt) && !MatchesSomewhere(Get(r, t).value, LoneAt)))
      && r'.typ == r.typ && r'.errors == r.errors
  {
    if Get(r, t).Some? { ProtectTitleShape(Get(r, t).value); }
  }

  /** Title protection changes no field but the titles, and in them only
      case, spaces and braces; a title without a subtitle match changes
      exactly when an inner-capitals run or a lone capital occurs in it. */
  lemma ConformTitlesKeepsLetters(r: RecordState)
    ensures var r' := ConformTitles(r);
      && (forall f :: f != "title" && f != "booktitle" ==> Get(r', f) == Get(r, f))
      && (forall t :: (t == "title" || t == "booktitle") ==> (Get(r', t).Some? <==> Get(r, t).Some?))
      && (forall t :: (t == "title" || t == "booktitle") && Get(r, t).Some? ==>
            TitleLetters(Get(r', t).value) == TitleLetters(Get(r, t).value))
      && (forall t :: (t == "title" || t == "booktitle") && Get(r, t).Some? && !MatchesSomewhere(Get(r, t).value, SubtitleAt) ==>
            (Get(r', t) == Get(r, t) <==>
               !MatchesSomewhere(Get(r, t).value, InnerAt) && !MatchesSomewhere(Get(r, t).value, LoneAt)))
      && r'.typ == r.typ && r'.errors == r.errors
  {
    TitleStepKeepsLetters(r, "title");
    TitleStepKeepsLetters(TitleStep(r, "title"), "booktitle");
  }


  // ===== checkvolumenumber =====

  /** A trailing volume phrase moves from the (book)title into `volume`. */
  function MoveVolume(r: RecordState, t: string, v: string): RecordState {
    VolumeSearchBounds(v);
    match VolumeSearch(v)
    case None => r
    case Some(m) => Put(Put(r, "volume", Some(v[m.numeral..m.end])), t, Some(Replace(v, v[m.start..m.end], "")))
  }

  function CheckVolumeNumber(r: RecordState): Outcome<RecordState> {
    if r.typ == "book" && "title" !in r.vals then Raised("KeyError")
    else if r.typ == "book" && r.vals["title"].None? then Raised("TypeError")
    else
      var r1 := if r.typ == "book" then MoveVolume(r, "title", r.vals["title"].value) else r;
      if r.typ != "incollection" then Done(r1)
      else if "booktitle" !in r1.vals then
        Done(Err(Put(r1, "booktitle", Some(NoBooktitle)), "no booktitle"))
      else if r1.vals["booktitle"].None? then Raised("TypeError")
      else Done(MoveVolume(r1, "booktitle", r1.vals["booktitle"].value))
  }

  /** The pass raises exactly when a book has no title string, or an
      incollection has a booktitle that is `None`. */
  lemma CheckVolumeNumberRaises(r: RecordState)
    ensures CheckVolumeNumber(r).Raised? <==>
      || (r.typ == "book" && Get(r, "title").None?)
      || (r.typ == "incollection" && "booktitle" in r.vals && r.vals["booktitle"].None?)
  {
  }

  /** What moves into `volume` is a non-empty run of digits and roman numeral
      letters, and the (book)title loses the whole volume phrase. */
  lemma MoveVolumeShape(r: RecordState, t: string, v: string)
    requires t != "volume" && VolumeSearch(v).Some?
    ensures var m := VolumeSearch(v).value; var r' := MoveVolume(r, t, v);
      && m.start < m.numeral < m.end <= |v|
      && Get(r', "volume") == Some(v[m.numeral..m.end])
      && (forall k :: m.numeral <= k < m.end ==> IsNumeral(v[k]))
      && Get(r', t) == Some(Replace(v, v[m.start..m.end], ""))
  {
    VolumeSearchBounds(v);
  }

  lemma MoveVolumeWithoutPhrase(r: RecordState, t: string, v: string)
    requires VolumeSearch(v).None?
    ensures MoveVolume(r, t, v) == r
  {
  }

  /** An incollection without any booktitle gets the placeholder and an error. */
  lemma MissingBooktitlePlaceholder(r: RecordState)
    requires r.typ == "incollection" && "booktitle" !in r.vals
    ensures var o := CheckVolumeNumber(r);
      && o.Done?
      && Get(o.value, "booktitle") == Some(NoBooktitle)
      && o.value.errors == r.errors + ["no booktitle"]
  {
  }

  // ===== conforminitials, correctampersand, checketal, checkand =====

  function InitialsStep(r: RecordState, t: string): RecordState {
    match Get(r, t)
    case Some(v) => Put(r, t, Some(ConformInitials(v)))
    case None => r
  }

  function ConformInitialsPass(r: RecordState): RecordState {
    InitialsStep(InitialsStep(r, "author"), "editor")
  }

  /** Initials only gain spaces and a final period, and a name changes
      exactly when two initials are joined by a bare period or it ends in a
      lone capital (before a final newline or not). */
  lemma ConformInitialsOnlyAddsSpacesAndPeriod(s: string)
    ensures Without(ConformInitials(s), {' ', '.'}) == Without(s, {' ', '.'})
    ensures ConformInitials(s) == s <==>
      !MatchesSomewhere(s, InitialsAt) && !EndsWithInitial(s) && !EndsWithInitialLine(s)
  {
    var a := InitialsSpace(s);
    InitialsSpaceKeepsDots(s);
    TrailingInitialKeepsDots(a);
    InitialsSpaceIff(s);
    TrailingInitialAddsPeriod(a);
  }

  lemma {:induction false} InitialsSpaceKeepsDots(s: string)
    ensures Without(InitialsSpace(s), {' ', '.'}) == Without(s, {' ', '.'})
    decreases |s|
  {
    var cs: set<char> := {' ', '.'};
    if |s| >= 3 && IsUpper(s[0]) && s[1] == '.' && IsUpper(s[2]) {
      InitialsSpaceKeepsDots(s[3..]);
      assert s == [s[0]] + [s[1]] + [s[2]] + s[3..];
      WithoutConcat([s[0]] + ". " + [s[2]], InitialsSpace(s[3..]), cs);
      WithoutConcat([s[0]] + [s[1]] + [s[2]], s[3..], cs);
      Without3([s[0]], ". ", [s[2]], cs);
      Without3([s[0]], [s[1]], [s[2]], cs);
      assert Without(". ", cs) == [] by { WithoutConcat(".", " ", cs); }
    } else if s != [] {
      InitialsSpaceKeepsDots(s[1..]);
      assert s == [s[0]] + s[1..];
      WithoutConcat([s[0]], InitialsSpace(s[1..]), cs);
      WithoutConcat([s[0]], s[1..], cs);
    }
  }

  lemma TrailingInitialKeepsDots(s: string)
    ensures Without(TrailingInitial(s), {' ', '.'}) == Without(s, {' ', '.'})
  {
    var cs: set<char> := {' ', '.'};
    if EndsWithInitial(s) {
      WithoutConcat(s, ".", cs);
    } else if EndsWithInitialLine(s) {
      var h := s[..|s| - 1];
      assert s == h + "\n";
      WithoutConcat(h, ".\n", cs);
      WithoutConcat(h, "\n", cs);
      assert Without(".\n", cs) == "\n" by { WithoutConcat(".", "\n", cs); }
    }
  }

  function AmpersandStep(r: RecordState, t: string): RecordState {
    match Get(r, t)
    case Some(v) => Put(r, t, Some(AmpersandToAnd(v)))
    case None => r
  }

  /** Ampersands become "and" in the name lists and are escaped in the address. */
  function CorrectAmpersand(r: RecordState): RecordState {
    var r1 := AmpersandStep(AmpersandStep(r, "author"), "editor");
    match Get(r1, "address")
    case Some(a) => Put(r1, "address", Some(Replace(a, " & ", " \\& ")))
    case None => r1
  }

  /** Escaping adds backslashes to the address and nothing else, and changes
      it exactly when " & " occurs in it. */
  lemma EscapedAddressOnlyAddsBackslashes(a: string)
    ensures Without(Replace(a, " & ", " \\& "), {'\\'}) == Without(a, {'\\'})
    ensures Replace(a, " & ", " \\& ") == a <==> !Contains(a, " & ")
  {
    ReplaceChangesIff(a, " & ", " \\& ");
    EscapedAmpersandErasure();
    ReplaceKeepsErasure(a, " & ", " \\& ", {'\\'});
  }

  lemma EscapedAmpersandErasure()
    ensures Without(" \\& ", {'\\'}) == Without(" & ", {'\\'})
  {
    var cs: set<char> := {'\\'};
    assert " \\& " == " " + "\\" + "& ";
    Without3(" ", "\\", "& ", cs);
    assert Without(" & ", cs) == " & " by { WithoutConcat(" ", "& ", cs); WithoutConcat("&", " ", cs); }
    assert Without("& ", cs) == "& " by { WithoutConcat("&", " ", cs); }
  }


  /** Every character of a contained text occurs in the containing one. */
  lemma {:induction false} ContainsPiece(s: string, p: string, j: nat)
    requires j < |p|
    ensures Contains(s, p) ==> Contains(s, [p[j]])
    decreases |s|
  {
    if Contains(s, p) {
      if p <= s {
        assert s[j..j + 1] == [p[j]];
        ContainsAt(s, [p[j]], j);
      } else {
        ContainsPiece(s[1..], p, j);
      }
    }
  }

  function EtAlMessage(t: string, v: string): string {
    EtAlText + t + ": " + v
  }

  function EtAlStep(r: RecordState, t: string): RecordState {
    match Get(r, t)
    case Some(v) =>
      if Contains(v, "et al") then
        var v' := Replace(v, "et al", EtAlMarker);
        Err(Put(r, t, Some(v')), EtAlMessage(t, v'))
      else r
    case None => r
  }

  function CheckEtAl(r: RecordState): RecordState {
    EtAlStep(EtAlStep(r, "author"), "editor")
  }

  /** A literal "et al" is marked in the field and reported, with the marked
      value in the message; a name list without it is left alone. */
  lemma EtAlStepIff(r: RecordState, t: string)
    requires Get(r, t).Some?
    ensures var r' := EtAlStep(r, t); var v := Get(r, t).value;
      && (Contains(v, "et al") ==> r'.errors == r.errors + [EtAlMessage(t, Get(r', t).value)])
      && (!Contains(v, "et al") ==> r' == r)
  {
  }

  function CommaMessage(t: string, v: string): string {
    CommaText + t + ": " + v
  }

  function AndStep(r: RecordState, t: string): RecordState {
    match Get(r, t)
    case Some(v) => if Count(v, ",") > Count(v, " and ") + 1 then Err(r, CommaMessage(t, v)) else r
    case None => r
  }

  function CheckAnd(r: RecordState): (r': RecordState)
    ensures r'.vals == r.vals && r'.order == r.order && r'.typ == r.typ
    ensures |r.errors| <= |r'.errors| <= |r.errors| + 2 && r'.errors[..|r.errors|] == r.errors
  {
    AndStep(AndStep(r, "author"), "editor")
  }

  /** A name list with at most one comma per "and" is accepted. */
  lemma AndStepAccepts(r: RecordState, t: string)
    requires Get(r, t).Some?
    ensures (Count(Get(r, t).value, ",") <= Count(Get(r, t).value, " and ") + 1) <==> AndStep(r, t) == r
  {
    var v := Get(r, t).value;
    if Count(v, ",") > Count(v, " and ") + 1 {
      assert |AndStep(r, t).errors| == |r.errors| + 1;
    }
  }

  // ===== checkedition =====

  /** The edition as `int()` sees it: quotes and braces removed, whitespace stripped. */
  function CleanEdition(e: string): string {
    Strip(Without(e, {'{', '}', '"'}))
  }

  function CheckEdition(r: RecordState): (r': RecordState)
    ensures r'.vals == r.vals && r'.order == r.order && r'.typ == r.typ
  {
    var e := Get(r, "edition");
    if Truthy(e) && !IsPyInt(CleanEdition(e.value)) then
      Err(r, EditionText + CleanEdition(e.value))
    else r
  }

  /** The edition is reported exactly when it is a non-empty value that is
      not an integer once braces and quotes are dropped. */
  lemma CheckEditionIff(r: RecordState)
    ensures CheckEdition(r).errors != r.errors <==>
      (Truthy(Get(r, "edition")) && !IsPyInt(CleanEdition(Get(r, "edition").value)))
  {
  }

  // ===== checkurldate =====

  const DateBrackets: set<char> := {'[', ']', '(', ')'}

  /** A url of two space-separated words whose second holds a year is split
      into the url and its access date. */
  function UrlDateFromUrl(r: RecordState): RecordState {
    var u := Get(r, "url");
    if !Truthy(u) then r
    else
      var parts := Split(u.value, " ");
      if |parts| == 2 && HasYear(parts[1]) then
        Put(Put(r, "url", Some(parts[0])), "urldate", Some(Without(parts[1], DateBrackets)))
      else r
  }

  /** An access date found in the note moves into `urldate`. */
  function UrlDateFromNote(r: RecordState): RecordState {
    var note := Get(r, "note");
    if !Truthy(note) then r
    else
      var n := note.value;
      UrlDateSearchShape(n);
      match UrlDateSearch(n)
      case None => r
      case Some(m) =>
        Put(Put(r, "urldate", Some(Without(n[m.group..m.groupEnd], DateBrackets))),
            "note", Some(Replace(n, n[m.start..m.end], "")))
  }

  function CheckUrlDate(r: RecordState): RecordState {
    if !Truthy(Get(r, "urldate")) then UrlDateFromNote(UrlDateFromUrl(r))
    else if Get(r, "url").None? then Err(r, UrldateAlone)
    else r
  }

  lemma {:induction false} WithoutRemoves(s: string, cs: set<char>)
    ensures forall k :: 0 <= k < |Without(s, cs)| ==> Without(s, cs)[k] !in cs
    decreases |s|
  {
    if s != [] {
      WithoutRemoves(s[1..], cs);
    }
  }

  /** Whenever the pass writes an access date it holds no brackets; an
      existing access date is kept, and reported when there is no url. */
  lemma CheckUrlDateShape(r: RecordState)
    ensures var r' := CheckUrlDate(r);
      && (Get(r', "urldate") != Get(r, "urldate") ==>
            Get(r', "urldate").Some? && forall k :: 0 <= k < |Get(r', "urldate").value| ==> Get(r', "urldate").value[k] !in DateBrackets)
      && (Truthy(Get(r, "urldate")) ==> r'.vals == r.vals)
      && (Truthy(Get(r, "urldate")) ==> (r'.errors == r.errors + [UrldateAlone] <==> Get(r, "url").None?))
  {
    var u := Get(r, "url");
    if Truthy(u) {
      var parts := Split(u.value, " ");
      if |parts| == 2 { WithoutRemoves(parts[1], DateBrackets); }
    }
    var r1 := UrlDateFromUrl(r);
    var note := Get(r1, "note");
    if Truthy(note) {
      UrlDateSearchShape(note.value);
      var m := UrlDateSearch(note.value);
      if m.Some? { WithoutRemoves(note.value[m.value.group..m.value.groupEnd], DateBrackets); }
    }
  }

  /** The two sources of an access date are tried in order, the note last:
      when the note holds a date, that date is the one kept even if the url
      already gave one, and the note loses every copy of the matched text;
      the url keeps only its first word when it gave a date. With no date in
      the note, only the url's split is applied. */
  lemma CheckUrlDateNoteWins(r: RecordState)
    requires !Truthy(Get(r, "urldate"))
    ensures var r' := CheckUrlDate(r); var u := Get(r, "url"); var note := Get(r, "note");
      && (Truthy(note) && UrlDateSearch(note.value).Some? ==>
            var n := note.value; var m := UrlDateSearch(n).value;
            && m.start <= m.group < m.groupEnd <= m.end <= |n|
            && Get(r', "urldate") == Some(Without(n[m.group..m.groupEnd], DateBrackets))
            && Get(r', "note") == Some(Replace(n, n[m.start..m.end], "")))
      && (!(Truthy(note) && UrlDateSearch(note.value).Some?) ==> r' == UrlDateFromUrl(r))
      && (Truthy(u) && |Split(u.value, " ")| == 2 && HasYear(Split(u.value, " ")[1]) ==>
            Get(r', "url") == Some(Split(u.value, " ")[0]))
      && (!(Truthy(u) && |Split(u.value, " ")| == 2 && HasYear(Split(u.value, " ")[1])) ==>
            Get(r', "url") == u)
      && r'.errors == r.errors
  {
    var r1 := UrlDateFromUrl(r);
    assert Get(r1, "note") == Get(r, "note");
    var note := Get(r, "note");
    if Truthy(note) {
      UrlDateSearchShape(note.value);
    }
  }

  // ===== checkurl =====

  const Nonsites: seq<string> := ["ebrary", "degruyter", "doi", "myilibrary", "academia", "ebscohost"]

  function RepositoryMessage(url: string): string {
    url + RepositoryText
  }

  /** The loop over the non-repository sites: one report per site the url
      mentions. */
  function ReportNonsites(r: RecordState, url: string, ns: seq<string>): RecordState
    decreases |ns|
  {
    if ns == [] then r
    else
      var r1 := ReportNonsites(r, url, ns[..|ns| - 1]);
      if Contains(url, ns[|ns| - 1]) then Err(r1, RepositoryMessage(url)) else r1
  }

  /** The url without one trailing period. */
  function TrimUrl(u: string): string {
    if EndsWith(u, ".") then u[..|u| - 1] else u
  }

  function CheckUrl(r: RecordState): RecordState {
    var u := Get(r, "url");
    if !Truthy(u) then r
    else
      var url := TrimUrl(u.value);
      var r1 := if EndsWith(u.value, ".") then Put(r, "url", Some(url)) else r;
      var r2 := if Count(url, " ") > 0 then Err(r1, "space in url") else r1;
      ReportNonsites(r2, url, Nonsites)
  }

  /** The site loop only appends the repository message. */
  lemma {:induction false} NonsitesOnlyReport(r: RecordState, url: string, ns: seq<string>)
    ensures var r' := ReportNonsites(r, url, ns);
      && r'.vals == r.vals && r'.order == r.order && r'.typ == r.typ
      && |r'.errors| >= |r.errors| && r'.errors[..|r.errors|] == r.errors
      && (forall k :: |r.errors| <= k < |r'.errors| ==> r'.errors[k] == RepositoryMessage(url))
    decreases |ns|
  {
    if ns != [] {
      var r1 := ReportNonsites(r, url, ns[..|ns| - 1]);
      NonsitesOnlyReport(r, url, ns[..|ns| - 1]);
      if Contains(url, ns[|ns| - 1]) {
        var r' := Err(r1, RepositoryMessage(url));
        assert r'.errors[..|r.errors|] == r1.errors[..|r.errors|];
      }
    }
  }

  /** Something is reported exactly when the url mentions one of the sites. */
  lemma {:induction false} NonsiteErrors(r: RecordState, url: string, ns: seq<string>)
    ensures |ReportNonsites(r, url, ns).errors| > |r.errors| <==> exists i :: 0 <= i < |ns| && Contains(url, ns[i])
    decreases |ns|
  {
    if ns != [] {
      var init := ns[..|ns| - 1];
      NonsiteErrors(r, url, init);
      NonsitesOnlyReport(r, url, init);
      assert forall i :: 0 <= i < |init| ==> init[i] == ns[i];
    }
  }

  /** The url loses at most one trailing period and no other field changes. */
  lemma CheckUrlFields(r: RecordState)
    requires Truthy(Get(r, "url"))
    ensures var r' := CheckUrl(r);
      && Get(r', "url") == Some(TrimUrl(Get(r, "url").value))
      && (forall f :: f != "url" ==> Get(r', f) == Get(r, f))
      && r'.typ == r.typ
  {
    var u := Get(r, "url").value;
    var url := TrimUrl(u);
    var r1 := if EndsWith(u, ".") then Put(r, "url", Some(url)) else r;
    var r2 := if Count(url, " ") > 0 then Err(r1, "space in url") else r1;
    NonsitesOnlyReport(r2, url, Nonsites);
  }

  /** A space in the url is reported first; a link to an aggregator or
      publisher platform is reported last. */
  lemma CheckUrlReports(r: RecordState)
    requires Truthy(Get(r, "url"))
    ensures var r' := CheckUrl(r); var url := TrimUrl(Get(r, "url").value);
      && |r'.errors| >= |r.errors| && r'.errors[..|r.errors|] == r.errors
      && (Contains(url, " ") ==> |r'.errors| > |r.errors| && r'.errors[|r.errors|] == "space in url")
      && ((exists i :: 0 <= i < |Nonsites| && Contains(url, Nonsites[i])) ==>
            |r'.errors| > |r.errors| && r'.errors[|r'.errors| - 1] == RepositoryMessage(url))
  {
    var u := Get(r, "url").value;
    var url := TrimUrl(u);
    var r1 := if EndsWith(u, ".") then Put(r, "url", Some(url)) else r;
    var r2 := if Count(url, " ") > 0 then Err(r1, "space in url") else r1;
    CountZeroIff(url, " ");
    NonsitesOnlyReport(r2, url, Nonsites);
    NonsiteErrors(r2, url, Nonsites);
    var r' := ReportNonsites(r2, url, Nonsites);
    if Contains(url, " ") {
      assert r'.errors[|r.errors|] == r'.errors[..|r2.errors|][|r.errors|];
    }
  }

  // ===== checkquestionmarks =====

  /** The loop over the fields in insertion order, reporting each value
      that contains "??". */
  function ReportQuestionMarks(r: RecordState, fs: seq<string>): RecordState
    decreases |fs|
  {
    if fs == [] then r
    else
      var r1 := ReportQuestionMarks(r, fs[..|fs| - 1]);
      var f := fs[|fs| - 1];
      if Get(r1, f).Some? && Contains(Get(r1, f).value, "??") then Err(r1, "?? in " + f) else r1
  }

  function CheckQuestionMarks(r: RecordState): RecordState {
    ReportQuestionMarks(r, r.order)
  }

  /** The loop only appends reports. */
  lemma {:induction false} QuestionMarksOnlyReport(r: RecordState, fs: seq<string>)
    ensures var r' := ReportQuestionMarks(r, fs);
      && r'.vals == r.vals && r'.order == r.order && r'.typ == r.typ
      && |r'.errors| >= |r.errors| && r'.errors[..|r.errors|] == r.errors
    decreases |fs|
  {
    if fs != [] {
      var r1 := ReportQuestionMarks(r, fs[..|fs| - 1]);
      QuestionMarksOnlyReport(r, fs[..|fs| - 1]);
      var r' := ReportQuestionMarks(r, fs);
      assert r'.errors[..|r.errors|] == r1.errors[..|r.errors|];
    }
  }

  /** `e` reports one of the fields `fs` whose value contains "??". */
  predicate QuestionReport(r: RecordState, fs: seq<string>, e: string) {
    exists i :: 0 <= i < |fs| && Get(r, fs[i]).Some? && Contains(Get(r, fs[i]).value, "??") && e == "?? in " + fs[i]
  }

  /** Each report names one of the fields whose value contains "??", and
      every such field is reported. */
  lemma {:induction false} QuestionMarkReports(r: RecordState, fs: seq<string>)
    ensures var r' := ReportQuestionMarks(r, fs);
      && (forall k :: |r.errors| <= k < |r'.errors| ==> QuestionReport(r, fs, r'.errors[k]))
      && (forall i :: 0 <= i < |fs| && Get(r, fs[i]).Some? && Contains(Get(r, fs[i]).value, "??") ==> "?? in " + fs[i] in r'.errors)
    decreases |fs|
  {
    if fs != [] {
      var init := fs[..|fs| - 1];
      QuestionMarkReports(r, init);
      QuestionMarksOnlyReport(r, init);
      var r1 := ReportQuestionMarks(r, init);
      var r' := ReportQuestionMarks(r, fs);
      assert forall i :: 0 <= i < |init| ==> init[i] == fs[i];
      forall k | |r.errors| <= k < |r'.errors|
        ensures QuestionReport(r, fs, r'.errors[k])
      {
        if k < |r1.errors| {
          assert r'.errors[k] == r1.errors[k];
          assert QuestionReport(r, init, r1.errors[k]);
          var i :| 0 <= i < |init| && Get(r, init[i]).Some? && Contains(Get(r, init[i]).value, "??") && r1.errors[k] == "?? in " + init[i];
          assert fs[i] == init[i];
        } else {
          var last := fs[|fs| - 1];
          assert Get(r1, last) == Get(r, last);
          assert k == |r1.errors| && r'.errors[k] == "?? in " + last;
          assert fs[|fs| - 1] == last;
        }
      }
      forall i | 0 <= i < |fs| && Get(r, fs[i]).Some? && Contains(Get(r, fs[i]).value, "??")
        ensures "?? in " + fs[i] in r'.errors
      {
        if i < |init| {
          assert "?? in " + init[i] in r1.errors;
          assert r1.errors <= r'.errors;
        }
      }
    }
  }

  // ===== addsortname, handleerror loops, placelookup =====

  /** The characters a name may hold without needing a sort name: ASCII
      letters, hyphen, space, comma, braces and period. */
  predicate SortPlain(c: char) {
    IsAsciiLetter(c) || c in "- ,{}."
  }

  /** `name.translate(...)` deleting the plain characters. */
  function Residue(name: string): string
    decreases |name|
  {
    if name == [] then [] else (if SortPlain(name[0]) then [] else [name[0]]) + Residue(name[1..])
  }

  function AddSortname(voc: Vocabulary, r: RecordState, name: string): RecordState {
    if Residue(name) == "" then r else Put(r, "sortname", Some(voc.translit(name)))
  }

  /** A sort name, the transliterated name, is added exactly when the name
      has a character that is not plain; no other field changes. */
  lemma AddSortnameIff(voc: Vocabulary, r: RecordState, name: string)
    ensures var r' := AddSortname(voc, r, name);
      && (forall f :: f != "sortname" ==> Get(r', f) == Get(r, f))
      && r'.typ == r.typ && r'.errors == r.errors
      && ((exists k :: 0 <= k < |name| && !SortPlain(name[k])) ==> Get(r', "sortname") == Some(voc.translit(name)))
      && ((forall k :: 0 <= k < |name| ==> SortPlain(name[k])) ==> r' == r)
  {
    ResidueEmptyIff(name);
  }

  lemma {:induction false} ResidueEmptyIff(s: string)
    ensures Residue(s) == "" <==> forall k :: 0 <= k < |s| ==> SortPlain(s[k])
    decreases |s|
  {
    if s != [] {
      ResidueEmptyIff(s[1..]);
      assert forall k :: 1 <= k < |s| ==> s[k] == s[1..][k - 1];
    }
  }

  /** `placelookup`: the address of a well-known publisher, first match wins. */
  function PlaceFor(p: string): Option<string> {
    if Contains(p, "John Benjamins") then Some("{Amsterdam}")
    else if Contains(p, "Cambridge") || Contains(p, "CUP") then Some("{Cambridge}")
    else if Contains(p, "Oxford") || Contains(p, "OUP") then Some("{Oxford}")
    else if Contains(p, "Blackwell") || Contains(p, "Routledge") then Some("{London}")
    else if Contains(p, "Gruyter") || Contains(p, "Mouton") then Some("{Berlin}")
    else if Contains(p, "Wiley") then Some("{Hoboken}")
    else None
  }

  function PlaceLookup(r: RecordState): Outcome<RecordState> {
    if Truthy(Get(r, "address")) then Done(r)
    else if "publisher" in r.vals && r.vals["publisher"].None? then Raised("TypeError")
    else
      var p := if "publisher" in r.vals then r.vals["publisher"].value else "";
      match PlaceFor(p)
      case Some(a) => Done(Put(r, "address", Some(a)))
      case None => Done(r)
  }

  /** A non-empty address is never overwritten; a missing one is filled in
      for a known publisher, and nothing else changes. */
  lemma PlaceLookupShape(r: RecordState)
    ensures Truthy(Get(r, "address")) ==> PlaceLookup(r) == Done(r)
    ensures PlaceLookup(r).Raised? <==> !Truthy(Get(r, "address")) && "publisher" in r.vals && r.vals["publisher"].None?
    ensures PlaceLookup(r).Done? ==> var r' := PlaceLookup(r).value;
      && (forall f :: f != "address" ==> Get(r', f) == Get(r, f))
      && r'.typ == r.typ && r'.errors == r.errors
      && (!Truthy(Get(r, "address")) && Get(r, "publisher").Some? && PlaceFor(Get(r, "publisher").value).Some? ==>
            Get(r', "address") == PlaceFor(Get(r, "publisher").value))
  {
  }

  // ===== checkarticle =====

  const ArticleMandatory: seq<string> := ["author", "year", "title", "journal", "volume"]

  /** An article without pages or url gets the pages placeholder. */
  function PagesPlaceholder(r: RecordState): RecordState {
    if Get(r, "pages").None? && Get(r, "url").None? then
      Err(Put(r, "pages", Some(NoPages)), "missing pages")
    else r
  }

  lemma PagesPlaceholderShape(r: RecordState)
    ensures var r' := PagesPlaceholder(r);
      && (forall f :: f != "pages" ==> Get(r', f) == Get(r, f))
      && (Get(r', "pages").Some? || Get(r', "url").Some?)
      && r'.typ == r.typ
  {
  }

  /** An article's number stands in for a missing volume. */
  function NumberAsVolume(r: RecordState): RecordState {
    if Get(r, "volume").None? && Get(r, "number").Some? then Del(Put(r, "volume", Get(r, "number")), "number") else r
  }

  /** The sort name of a truthy author. */
  function AuthorSortname(voc: Vocabulary, r: RecordState): RecordState {
    var auth := Get(r, "author");
    if Truthy(auth) then AddSortname(voc, r, auth.value) else r
  }

  /** The mandatory fields, the pages placeholder and the author's sort name. */
  function ArticleFields(voc: Vocabulary, r: RecordState): RecordState {
    AuthorSortname(voc, PagesPlaceholder(HandleAll(r, ArticleMandatory)))
  }

  function CheckArticle(voc: Vocabulary, r: RecordState): RecordState {
    if r.typ != "article" then r else ArticleFields(voc, NumberAsVolume(r))
  }

  lemma NumberAsVolumeShape(r: RecordState)
    ensures var r' := NumberAsVolume(r);
      && (forall f :: f != "volume" && f != "number" ==> Get(r', f) == Get(r, f))
      && (Get(r, "volume").None? && Get(r, "number").Some? ==> Get(r', "volume") == Get(r, "number") && Get(r', "number").None?)
      && (Get(r, "volume").Some? || Get(r, "number").None? ==> r' == r)
      && r'.typ == r.typ
  {
  }

  /** Sorting the author adds at most the sort name. */
  lemma AuthorSortnameShape(voc: Vocabulary, r: RecordState)
    ensures var r' := AuthorSortname(voc, r);
      && (forall f :: f != "sortname" ==> Get(r', f) == Get(r, f))
      && r'.typ == r.typ && r'.errors == r.errors
  {
    var auth := Get(r, "author");
    if Truthy(auth) { AddSortnameIff(voc, r, auth.value); }
  }

  /** Every mandatory field of an article ends up holding a value, and so
      does `pages` or `url`; values already present and the other fields,
      apart from the sort name, are kept. */
  lemma ArticleFieldsComplete(voc: Vocabulary, r: RecordState)
    ensures var r' := ArticleFields(voc, r);
      && r'.typ == r.typ
      && (forall m :: m in ArticleMandatory ==> Get(r', m).Some?)
      && (Get(r', "pages").Some? || Get(r', "url").Some?)
      && (forall f :: Get(r, f).Some? && f != "sortname" ==> Get(r', f) == Get(r, f))
      && (forall f :: f !in ArticleMandatory && f != "pages" && f != "sortname" ==> Get(r', f) == Get(r, f))
  {
    var r2 := HandleAll(r, ArticleMandatory);
    HandleAllFills(r, ArticleMandatory);
    var r3 := PagesPlaceholder(r2);
    PagesPlaceholderShape(r2);
    AuthorSortnameShape(voc, r3);
  }

  /** After the article checks every mandatory field of an article holds a
      value, and so does `pages` or `url`. */
  lemma CheckArticleComplete(voc: Vocabulary, r: RecordState)
    requires r.typ == "article"
    ensures var r' := CheckArticle(voc, r);
      && r'.typ == "article"
      && (forall m :: m in ArticleMandatory ==> Get(r', m).Some?)
      && (Get(r', "pages").Some? || Get(r', "url").Some?)
  {
    NumberAsVolumeShape(r);
    ArticleFieldsComplete(voc, NumberAsVolume(r));
  }

  /** A number standing in for a missing volume becomes the volume. */
  lemma ArticleNumberBecomesVolume(voc: Vocabulary, r: RecordState)
    requires r.typ == "article" && Get(r, "volume").None? && Get(r, "number").Some?
    ensures Get(CheckArticle(voc, r), "volume") == Get(r, "number")
    ensures Get(CheckArticle(voc, r), "number").None?
  {
    NumberAsVolumeShape(r);
    ArticleFieldsComplete(voc, NumberAsVolume(r));
    assert "number" !in ArticleMandatory;
  }

  // ===== checkthesis =====

  function CheckThesis(r: RecordState): Outcome<RecordState> {
    if r.typ != "book" then Done(r)
    else if "publisher" in r.vals && r.vals["publisher"].None? then Raised("TypeError")
    else
      var p := if "publisher" in r.vals then r.vals["publisher"].value else "";
      ThesisSearchShape(p);
      match ThesisSearch(p)
      case None => Done(r)
      case Some(m) =>
        var typ := if ThesisGroup2(m) == Some("doctoral") || ThesisGroup2(m) == Some("PhD") then "phdthesis" else "thesis";
        Done(Del(Put(r.(typ := typ), "school", Some(p[m.start..m.marker])), "publisher"))
  }

  /** A book whose publisher names a dissertation becomes a thesis whose
      school is the text before the marker; it never becomes a phdthesis. */
  lemma CheckThesisShape(r: RecordState)
    ensures CheckThesis(r).Raised? <==> r.typ == "book" && "publisher" in r.vals && r.vals["publisher"].None?
    ensures CheckThesis(r).Done? ==> CheckThesis(r).value.typ != "phdthesis" || r.typ == "phdthesis"
    ensures CheckThesis(r).Done? && r.typ == "book" && Get(r, "publisher").Some? && ThesisSearch(Get(r, "publisher").value).Some? ==>
      var r' := CheckThesis(r).value; var p := Get(r, "publisher").value; var m := ThesisSearch(p).value;
      && r'.typ == "thesis" && Get(r', "publisher").None? && "publisher" !in r'.vals
      && Get(r', "school") == Some(p[m.start..m.marker])
  {
    if r.typ == "book" && Get(r, "publisher").Some? {
      var p := Get(r, "publisher").value;
      ThesisSearchShape(p);
      if ThesisSearch(p).Some? { ThesisGroup2NeverDoctoral(ThesisSearch(p).value); }
    }
  }

  // ===== checkbook =====

  const BookMandatory: seq<string> := ["year", "title", "address", "publisher"]

  /** With a series, a lone volume is really the series number. */
  function SeriesVolumeToNumber(r: RecordState): RecordState {
    if Get(r, "series").Some? && Get(r, "volume").Some? && Get(r, "number").None? then
      Del(Put(r, "number", Get(r, "volume")), "volume")
    else r
  }

  lemma SeriesVolumeToNumberShape(r: RecordState)
    ensures var r' := SeriesVolumeToNumber(r);
      && (forall f :: f != "volume" && f != "number" ==> Get(r', f) == Get(r, f))
      && (Get(r, "series").Some? && Get(r, "volume").Some? && Get(r, "number").None? ==>
            Get(r', "number") == Get(r, "volume") && Get(r', "volume").None?)
      && (Get(r, "series").None? || Get(r, "volume").None? || Get(r, "number").Some? ==> r' == r)
      && r'.typ == r.typ
  {
  }

  /** A book has an author or an editor, not both. */
  function BookCreators(voc: Vocabulary, r: RecordState): RecordState {
    var auth := Get(r, "author");
    var ed := Get(r, "editor");
    if Truthy(auth) then
      if Truthy(ed) then Err(r, BothCreators) else AddSortname(voc, r, auth.value)
    else if Truthy(ed) then AddSortname(voc, r, ed.value)
    else Err(r, NoCreator)
  }

  /** Both and neither are reported; otherwise the one creator is sorted. */
  lemma BookCreatorsShape(voc: Vocabulary, r: RecordState)
    ensures var r' := BookCreators(voc, r); var auth := Get(r, "author"); var ed := Get(r, "editor");
      && (forall f :: f != "sortname" ==> Get(r', f) == Get(r, f))
      && r'.typ == r.typ
      && (Truthy(auth) && Truthy(ed) ==> r'.errors == r.errors + [BothCreators])
      && (!Truthy(auth) && !Truthy(ed) ==> r'.errors == r.errors + [NoCreator])
      && (Truthy(auth) != Truthy(ed) ==> r'.errors == r.errors)
      && (Truthy(auth) && !Truthy(ed) ==> r' == AddSortname(voc, r, auth.value))
      && (!Truthy(auth) && Truthy(ed) ==> r' == AddSortname(voc, r, ed.value))
  {
    var auth := Get(r, "author");
    var ed := Get(r, "editor");
    if Truthy(auth) && !Truthy(ed) { AddSortnameIff(voc, r, auth.value); }
    if !Truthy(auth) && Truthy(ed) { AddSortnameIff(voc, r, ed.value); }
  }

  /** What `checkbook` does after the place lookup. */
  function BookFields(voc: Vocabulary, r: RecordState): RecordState {
    BookCreators(voc, SeriesVolumeToNumber(HandleAll(r, BookMandatory)))
  }

  function CheckBook(voc: Vocabulary, r: RecordState): Outcome<RecordState> {
    if r.typ != "book" then Done(r)
    else match PlaceLookup(r)
      case Raised(e) => Raised(e)
      case Done(r1) => Done(BookFields(voc, r1))
  }

  /** Every field of `ms` holds a value. */
  predicate Filled(r: RecordState, ms: seq<string>) {
    forall m :: m in ms ==> Get(r, m).Some?
  }

  lemma SeriesKeepsFilled(r: RecordState, ms: seq<string>)
    requires Filled(r, ms) && "volume" !in ms && "number" !in ms
    ensures Filled(SeriesVolumeToNumber(r), ms)
  {
    SeriesVolumeToNumberShape(r);
  }

  lemma CreatorsKeepFilled(voc: Vocabulary, r: RecordState, ms: seq<string>)
    requires Filled(r, ms) && "sortname" !in ms
    ensures Filled(BookCreators(voc, r), ms)
  {
    BookCreatorsShape(voc, r);
  }

  /** The book's mandatory fields end up holding values. */
  lemma BookFieldsFilled(voc: Vocabulary, r: RecordState)
    ensures var r' := BookFields(voc, r);
      && r'.typ == r.typ
      && (forall m :: m in BookMandatory ==> Get(r', m).Some?)
  {
    var r1 := HandleAll(r, BookMandatory);
    HandleAllFills(r, BookMandatory);
    assert Filled(r1, BookMandatory);
    var r2 := SeriesVolumeToNumber(r1);
    SeriesKeepsFilled(r1, BookMandatory);
    SeriesVolumeToNumberShape(r1);
    CreatorsKeepFilled(voc, r2, BookMandatory);
    BookCreatorsShape(voc, r2);
  }

  /** A book with both or neither of author and editor is reported last. */
  lemma BookFieldsReports(voc: Vocabulary, r: RecordState)
    ensures var r' := BookFields(voc, r);
      && (Truthy(Get(r, "author")) && Truthy(Get(r, "editor")) ==> |r'.errors| > 0 && r'.errors[|r'.errors| - 1] == BothCreators)
      && (!Truthy(Get(r, "author")) && !Truthy(Get(r, "editor")) ==> |r'.errors| > 0 && r'.errors[|r'.errors| - 1] == NoCreator)
  {
    BookCreatorsInputs(r);
    BookCreatorsShape(voc, SeriesVolumeToNumber(HandleAll(r, BookMandatory)));
  }

  /** The creator check sees the creators as they came in. */
  lemma BookCreatorsInputs(r: RecordState)
    ensures var r2 := SeriesVolumeToNumber(HandleAll(r, BookMandatory));
      Get(r2, "author") == Get(r, "author") && Get(r2, "editor") == Get(r, "editor")
  {
    var r1 := HandleAll(r, BookMandatory);
    HandleAllFills(r, BookMandatory);
    assert Get(r1, "author") == Get(r, "author") by { assert "author" !in BookMandatory; }
    assert Get(r1, "editor") == Get(r, "editor") by { assert "editor" !in BookMandatory; }
    SeriesVolumeToNumberShape(r1);
  }

  /** After the book checks year, title, address and publisher hold values,
      and a book with both or neither of author and editor is reported. */
  lemma CheckBookComplete(voc: Vocabulary, r: RecordState)
    requires r.typ == "book" && CheckBook(voc, r).Done?
    ensures var r' := CheckBook(voc, r).value;
      && r'.typ == "book"
      && (forall m :: m in BookMandatory ==> Get(r', m).Some?)
      && (Truthy(Get(r, "author")) && Truthy(Get(r, "editor")) ==> |r'.errors| > 0 && r'.errors[|r'.errors| - 1] == BothCreators)
      && (!Truthy(Get(r, "author")) && !Truthy(Get(r, "editor")) ==> |r'.errors| > 0 && r'.errors[|r'.errors| - 1] == NoCreator)
  {
    PlaceLookupShape(r);
    BookFieldsFilled(voc, PlaceLookup(r).value);
    BookFieldsReports(voc, PlaceLookup(r).value);
  }

  // ===== checkincollection =====

  const ChapterMandatory: seq<string> := ["author", "year", "title"]
  const VolumeMandatory: seq<string> := ["editor", "publisher", "address"]

  /** The chapter's own fields: mandatory fields, pages, the author's sort name. */
  function ChapterFields(voc: Vocabulary, r: RecordState): RecordState {
    AuthorSortname(voc, PagesPlaceholder(HandleAll(r, ChapterMandatory)))
  }

  /** The containing volume's fields, unless a cross-reference supplies them;
      proceedings need only a booktitle. */
  function VolumeFields(r: RecordState): RecordState {
    if Truthy(Get(r, "crossref")) then r
    else
      var r1 := HandleError(r, "booktitle");
      if Contains(Lower(Get(r1, "booktitle").value), "proceedings") then r1
      else HandleAll(r1, VolumeMandatory)
  }

  function CheckIncollection(voc: Vocabulary, r: RecordState): Outcome<RecordState> {
    if r.typ != "incollection" then Done(r)
    else match PlaceLookup(r)
      case Raised(e) => Raised(e)
      case Done(r1) => Done(VolumeFields(ChapterFields(voc, r1)))
  }

  lemma ChapterFieldsComplete(voc: Vocabulary, r: RecordState)
    ensures var r' := ChapterFields(voc, r);
      && r'.typ == r.typ
      && (forall m :: m in ChapterMandatory ==> Get(r', m).Some?)
      && (Get(r', "pages").Some? || Get(r', "url").Some?)
      && (forall f :: f !in ChapterMandatory && f != "pages" && f != "sortname" ==> Get(r', f) == Get(r, f))
  {
    var r2 := HandleAll(r, ChapterMandatory);
    HandleAllFills(r, ChapterMandatory);
    var r3 := PagesPlaceholder(r2);
    PagesPlaceholderShape(r2);
    AuthorSortnameShape(voc, r3);
  }

  lemma VolumeFieldsComplete(r: RecordState)
    ensures var r' := VolumeFields(r);
      && r'.typ == r.typ
      && (forall f :: Get(r, f).Some? ==> Get(r', f) == Get(r, f))
      && Get(r', "crossref") == Get(r, "crossref")
      && (!Truthy(Get(r, "crossref")) ==> Get(r', "booktitle").Some?)
      && (!Truthy(Get(r, "crossref")) && !Contains(Lower(Get(r', "booktitle").value), "proceedings") ==>
            forall m :: m in VolumeMandatory ==> Get(r', m).Some?)
  {
    if !Truthy(Get(r, "crossref")) {
      var r1 := HandleError(r, "booktitle");
      HandleAllFills(r1, VolumeMandatory);
      assert "booktitle" !in VolumeMandatory && "crossref" !in VolumeMandatory;
    }
  }

  /** A chapter ends with author, year and title; without a cross-reference
      also with a booktitle; and unless that booktitle names proceedings,
      also with editor, publisher and address. */
  lemma CheckIncollectionComplete(voc: Vocabulary, r: RecordState)
    requires r.typ == "incollection" && CheckIncollection(voc, r).Done?
    ensures var r' := CheckIncollection(voc, r).value;
      && r'.typ == "incollection"
      && (forall m :: m in ChapterMandatory ==> Get(r', m).Some?)
      && (Get(r', "pages").Some? || Get(r', "url").Some?)
      && (!Truthy(Get(r', "crossref")) ==> Get(r', "booktitle").Some?)
      && (!Truthy(Get(r', "crossref")) && !Contains(Lower(Get(r', "booktitle").value), "proceedings") ==>
            forall m :: m in VolumeMandatory ==> Get(r', m).Some?)
  {
    PlaceLookupShape(r);
    var r1 := PlaceLookup(r).value;
    ChapterFieldsComplete(voc, r1);
    assert "crossref" !in ChapterMandatory;
    VolumeFieldsComplete(ChapterFields(voc, r1));
  }

  // ===== checklanguagenames =====

  /** The title as the noun search sees it: `str(fields.get(t, default))`. */
  function Shown(r: RecordState, t: string, default: string): string {
    if t in r.vals then Str(r.vals[t]) else default
  }

  /** Proper nouns found in the title are wrapped in braces. The field is
      written as soon as one is found: wrapping a found word always makes
      the text longer, so it differs from the original. */
  function NounsStep(voc: Vocabulary, r: RecordState, t: string): RecordState {
    var v := Shown(r, t, " ");
    var found := FindNouns(voc.nouns, v, 0);
    if found == [] then r else Put(r, t, Some(WrapAll(v, found)))
  }

  function ConferenceStep(r: RecordState, t: string): RecordState {
    var v := Shown(r, t, "");
    ConferenceMatchShape(v);
    match ConferenceSearch(v)
    case None => r
    case Some((i, e)) => Put(r, t, Some(Wrap(v, v[i..e])))
  }

  function ProceedingsStep(r: RecordState, t: string): RecordState {
    var v := Shown(r, t, "");
    ProceedingsMatchShape(v);
    match ProceedingsSearch(v)
    case None => r
    case Some((i, e)) =>
      MeetingWordNonEmpty(v[i..e]);
      Put(r, t, Some(Wrap(v, v[i..e])))
  }

  lemma MeetingWordNonEmpty(t: string)
    ensures HasMeetingWord(t) ==> |t| > 0
  {
    ContainsPiece(t, " Proceedings", 0);
    ContainsPiece(t, " Workshop", 0);
    ContainsPiece(t, " Conference", 0);
    ContainsPiece(t, " Symposium", 0);
  }

  function LanguageNamesStep(voc: Vocabulary, r: RecordState, t: string): RecordState {
    ProceedingsStep(ConferenceStep(NounsStep(voc, r, t), t), t)
  }

  /** The loop over title and booktitle. */
  function CheckLanguageNames(voc: Vocabulary, r: RecordState): RecordState {
    LanguageNamesStep(voc, LanguageNamesStep(voc, r, "title"), "booktitle")
  }

  /** Wrapping only adds braces. */
  lemma WrapOnlyAddsBraces(s: string, g: string)
    requires |g| > 0
    ensures Without(Wrap(s, g), Braces) == Without(s, Braces)
  {
    BracedErasure(g);
    ReplaceKeepsErasure(s, g, Braced(g), Braces);
  }

  /** A title step that only adds braces to field `t` and touches nothing else. */
  ghost predicate OnlyBraces(r: RecordState, r': RecordState, t: string) {
    && Get(r, t).Some? && Get(r', t).Some? && Without(Get(r', t).value, Braces) == Without(Get(r, t).value, Braces)
    && (forall f :: f != t ==> Get(r', f) == Get(r, f))
    && r'.typ == r.typ && r'.errors == r.errors
  }

  lemma NounsStepOnlyAddsBraces(voc: Vocabulary, r: RecordState, t: string)
    requires BraceFreeNouns(voc.nouns) && Get(r, t).Some?
    ensures OnlyBraces(r, NounsStep(voc, r, t), t)
  {
    var v := Get(r, t).value;
    WrapAllOnlyAddsBraces(v, FindNouns(voc.nouns, v, 0));
  }

  lemma ConferenceStepOnlyAddsBraces(r: RecordState, t: string)
    requires Get(r, t).Some?
    ensures OnlyBraces(r, ConferenceStep(r, t), t)
  {
    var v := Get(r, t).value;
    ConferenceMatchShape(v);
    if ConferenceSearch(v).Some? {
      var (i, e) := ConferenceSearch(v).value;
      WrapOnlyAddsBraces(v, v[i..e]);
    }
  }

  lemma ProceedingsStepOnlyAddsBraces(r: RecordState, t: string)
    requires Get(r, t).Some?
    ensures OnlyBraces(r, ProceedingsStep(r, t), t)
  {
    var v := Get(r, t).value;
    ProceedingsMatchShape(v);
    if ProceedingsSearch(v).Some? {
      var (i, e) := ProceedingsSearch(v).value;
      MeetingWordNonEmpty(v[i..e]);
      WrapOnlyAddsBraces(v, v[i..e]);
    }
  }

  /** The proper-noun and conference protection of one title only adds
      braces to it and touches no other field; it leaves the record alone
      exactly when no noun, no conference name and no meeting title is
      found in the title. */
  lemma LanguageNamesStepOnlyAddsBraces(voc: Vocabulary, r: RecordState, t: string)
    requires BraceFreeNouns(voc.nouns) && Get(r, t).Some?
    ensures OnlyBraces(r, LanguageNamesStep(voc, r, t), t)
    ensures var v := Get(r, t).value;
      LanguageNamesStep(voc, r, t) == r <==>
        FindNouns(voc.nouns, v, 0) == [] && ConferenceSearch(v).None? && ProceedingsSearch(v).None?
  {
    var r1 := NounsStep(voc, r, t);
    NounsStepOnlyAddsBraces(voc, r, t);
    NounsStepChanges(voc, r, t);
    var r2 := ConferenceStep(r1, t);
    ConferenceStepOnlyAddsBraces(r1, t);
    ConferenceStepChanges(r1, t);
    ProceedingsStepOnlyAddsBraces(r2, t);
    ProceedingsStepChanges(r2, t);
  }

  /** Finding no noun leaves the record alone; finding one lengthens the title. */
  lemma NounsStepChanges(voc: Vocabulary, r: RecordState, t: string)
    requires Get(r, t).Some?
    ensures var v := Get(r, t).value; var r' := NounsStep(voc, r, t);
      && (FindNouns(voc.nouns, v, 0) == [] ==> r' == r)
      && (FindNouns(voc.nouns, v, 0) != [] ==> Get(r', t).Some? && |Get(r', t).value| > |v|)
  {
    var v := Get(r, t).value;
    var found := FindNouns(voc.nouns, v, 0);
    if found != [] {
      WrapAllGrows(v, found);
    }
  }

  /** Wrapping a non-empty slice of the text lengthens it. */
  lemma WrapSliceGrows(v: string, i: nat, e: nat)
    requires i < e <= |v|
    ensures |Wrap(v, v[i..e])| > |v|
  {
    ContainsAt(v, v[i..e], i);
    ReplaceChangesIff(v, v[i..e], Braced(v[i..e]));
  }

  lemma ConferenceStepChanges(r: RecordState, t: string)
    requires Get(r, t).Some?
    ensures var v := Get(r, t).value; var r' := ConferenceStep(r, t);
      && (ConferenceSearch(v).None? ==> r' == r)
      && (ConferenceSearch(v).Some? ==> Get(r', t).Some? && |Get(r', t).value| > |v|)
  {
    var v := Get(r, t).value;
    ConferenceMatchShape(v);
    if ConferenceSearch(v).Some? {
      var (i, e) := ConferenceSearch(v).value;
      WrapSliceGrows(v, i, e);
    }
  }

  lemma ProceedingsStepChanges(r: RecordState, t: string)
    requires Get(r, t).Some?
    ensures var v := Get(r, t).value; var r' := ProceedingsStep(r, t);
      && (ProceedingsSearch(v).None? ==> r' == r)
      && (ProceedingsSearch(v).Some? ==> Get(r', t).Some? && |Get(r', t).value| > |v|)
  {
    var v := Get(r, t).value;
    ProceedingsMatchShape(v);
    if ProceedingsSearch(v).Some? {
      var (i, e) := ProceedingsSearch(v).value;
      MeetingWordNonEmpty(v[i..e]);
      WrapSliceGrows(v, i, e);
    }
  }

  // ===== conform =====

  /** The repairs at the head of `conform`, up to the volume check. */
  function Repairs(r: RecordState): Outcome<RecordState> {
    CheckVolumeNumber(ConformTitles(DashPagesPass(BackfillBooktitle(r))))
  }

  /** The checks on names, edition, url and question marks, then the
      article check. */
  function Checks(voc: Vocabulary, r: RecordState): RecordState {
    var r1 := CheckUrl(CheckUrlDate(CheckEdition(CheckAnd(CheckEtAl(CorrectAmpersand(ConformInitialsPass(r)))))));
    CheckArticle(voc, CheckQuestionMarks(r1))
  }

  /** The type-specific checks, then the proper-noun protection. */
  function TypeChecks(voc: Vocabulary, r: RecordState): Outcome<RecordState> {
    match CheckThesis(r)
    case Raised(e) => Raised(e)
    case Done(r5) =>
      match CheckBook(voc, r5)
      case Raised(e) => Raised(e)
      case Done(r6) =>
        match CheckIncollection(voc, r6)
        case Raised(e) => Raised(e)
        case Done(r7) => Done(CheckLanguageNames(voc, r7))
  }

  /** The whole of `conform`, in the order of its calls. */
  function Conform(voc: Vocabulary, r: RecordState): Outcome<RecordState> {
    match Repairs(r)
    case Raised(e) => Raised(e)
    case Done(r2) => TypeChecks(voc, Checks(voc, r2))
  }
}
