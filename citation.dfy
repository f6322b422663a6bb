/** The free-text path of the record constructor (bibtools.py, lines
    126-253): one citation as a reference list prints it is classified by an
    ordered cascade of tests, read into a field map by the grammar that won,
    tidied, and given a citation key. */
module Citation {
  import opened PyStr
  import opened BibPatterns
  import opened FieldState

  /** The named groups of a match; a group that took no part is `None`. */
  type Groups = map<string, Option<string>>

  /** The five large grammars of bibpatterns.py (lines 75-119), which this
      model does not spell out: each gives the groups of its match, if any. */
  datatype Grammars = Grammars(
    incollection: string -> Option<Groups>,   // INCOLLECTION.search
    article: string -> Option<Groups>,        // ARTICLE.search
    onlineArticle: string -> Option<Groups>,  // ONLINEARTICLE.search
    book: string -> Option<Groups>,           // BOOK.match
    misc: string -> Option<Groups>)           // MISC.search

  /** `m.group(g)` */
  function Group(m: Groups, g: string): Option<string> {
    if g in m then m[g] else None
  }

  /** The fields every citation starts with, in the order they are set. */
  const Slots: seq<string> :=
    ["title", "booktitle", "author", "editor", "year", "journal", "volume",
     "number", "pages", "address", "publisher", "note", "url"]

  const Anonymous: string := "Anonymous"

  /** The field map before any grammar has run: all `None` but `author`. */
  function Blank(typ: string): RecordState {
    RecordState(typ, map f | f in Slots :: if f == "author" then Some(Anonymous) else None, Slots, [])
  }

  // The groups each grammar hands over, in the order the source copies them.
  const IncollectionGroups: seq<string> :=
    ["author", "editor", "title", "booktitle", "year", "address", "publisher", "pages", "note"]
  const ArticleGroups: seq<string> :=
    ["author", "title", "year", "journal", "number", "volume", "pages", "note"]
  const OnlineGroups: seq<string> :=
    ["author", "title", "year", "journal", "number", "volume", "url", "note"]
  const BookGroups: seq<string> := ["title", "year", "address", "publisher", "note"]
  const MiscGroups: seq<string> := ["author", "title", "year", "note"]

  /** `d[g] = m.group(g)` for each `g` in turn. */
  function Fill(d: RecordState, m: Groups, gs: seq<string>): RecordState
    decreases |gs|
  {
    if gs == [] then d else Fill(Put(d, gs[0], Group(m, gs[0])), m, gs[1..])
  }

  /** The book grammar's groups; an `(ed.)` after the name makes it the editor. */
  function FillBook(d: RecordState, m: Groups): RecordState {
    var d1 := Put(d, "author", Group(m, "author"));
    var d2 := if Group(m, "ed").Some? then Put(Put(d1, "editor", Group(m, "author")), "author", None) else d1;
    Fill(d2, m, BookGroups)
  }

  /** `NUMBERVOLUME`, `URL` and the online-article grammar all match. */
  predicate OnlineArticle(gr: Grammars, s: string) {
    NumberVolumeSearch(s) && UrlSearch(s).Some? && gr.onlineArticle(s).Some?
  }

  /** The cascade of lines 146-202: the first test that succeeds picks the
      type and the grammar whose groups fill the map. */
  function Classify(gr: Grammars, s: string): RecordState {
    if EditorSearch(s) then
      var m := gr.incollection(s);
      if m.Some? then Fill(Blank("incollection"), m.value, IncollectionGroups) else Blank("incollection")
    else if gr.article(s).Some? then Fill(Blank("article"), gr.article(s).value, ArticleGroups)
    else if OnlineArticle(gr, s) then Fill(Blank("article"), gr.onlineArticle(s).value, OnlineGroups)
    else if PubAddrSearch(s) then
      var m := gr.book(s);
      if m.Some? then FillBook(Blank("book"), m.value) else Blank("book")
    else
      var m := gr.misc(s);
      if m.Some? then Fill(Blank("misc"), m.value, MiscGroups) else Blank("misc")
  }

  // ----- tidying (lines 204-222) -----

  /** A note that is only "." is dropped. */
  function DropDotNote(d: RecordState): RecordState {
    if Get(d, "note") == Some(".") then Put(d, "note", None) else d
  }

  /** `&` becomes `and` in the author, or failing an author in the editor;
      with neither the constructor stops (`None`). */
  function NormalizeCreators(d: RecordState): Option<RecordState> {
    match Get(d, "author")
    case Some(a) => Some(Put(d, "author", Some(Replace(Replace(a, " &", " and "), "\\ ", " "))))
    case None =>
      match Get(d, "editor")
      case Some(e) => Some(Put(d, "editor", Some(Replace(e, " &", " and "))))
      case None => None
  }

  /** A URL found in a non-empty note moves from the note to `url`. */
  function MoveUrl(d: RecordState): RecordState {
    var n := Get(d, "note");
    if !Truthy(n) then d
    else match UrlSearch(n.value)
      case None => d
      case Some(ij) =>
        UrlSearchSpan(n.value);
        var url := n.value[ij.0..ij.1];
        Put(Put(d, "note", Some(Strip(Replace(n.value, url, "")))), "url", Some(url))
  }

  /** A title ending in `(Series N)` gives up series and number. */
  function SplitSeries(d: RecordState): RecordState {
    var t := Get(d, "title");
    if !Truthy(t) then d
    else match SeriesNumber(t.value)
      case None => d
      case Some(m) =>
        SeriesNumberShape(t.value);
        var s := t.value;
        Put(Put(Put(d, "series", Some(s[m.title + 2..m.seriesEnd])), "number", Some(s[m.number..m.close])),
            "title", Some(s[..m.title]))
  }

  // ----- the citation key (lines 225-252) -----

  /** The creator token: the author's text before its first comma with its
      spaces taken out, or the first word of the editor's. */
  function CreatorPart(creator: string, fromAuthor: bool): string {
    if fromAuthor then Replace(Split(creator, ",")[0], " ", "")
    else Split(Split(creator, ",")[0], " ")[0]
  }

  /** One creator, plus one per " and " and one per "&". */
  function CreatorCount(creator: string): nat {
    1 + Count(creator, " and ") + Count(creator, "&")
  }

  function Last(xs: seq<string>): string
    requires |xs| > 0
  {
    xs[|xs| - 1]
  }

  /** The second of two creators, by surname: the part before a comma, else
      the last word. */
  function SecondSurname(creator: string): string {
    var second := Strip(Last(Split(creator, " and ")));
    if Contains(second, ",") then Split(second, ",")[0]
    else if Contains(second, " ") then Last(Split(second, " "))
    else second
  }

  function CitationKey(creator: string, fromAuthor: bool, year: string): string {
    var n := CreatorCount(creator);
    CreatorPart(creator, fromAuthor)
    + (if n > 2 then "EtAl" else if n == 2 then SecondSurname(creator) else "")
    + Take(year, 4)
  }

  // ----- the whole path -----

  /** The outcome of the free-text path: `Unkeyed` when the constructor
      returns early (no creator, or no year), leaving no key and no fields. */
  datatype Citation = Unkeyed | Keyed(key: string, fields: RecordState)

  /** Tidying after the creators: the URL, then the series. */
  function Tidy(d: RecordState): RecordState {
    SplitSeries(MoveUrl(d))
  }

  function ReadCitation(gr: Grammars, s: string): Citation {
    match NormalizeCreators(DropDotNote(Classify(gr, Strip(s))))
    case None => Unkeyed
    case Some(d1) =>
      NormalizeCreatorsKeepsOne(DropDotNote(Classify(gr, Strip(s))));
      TidyKeepsCreators(d1);
      var d := Tidy(d1);
      var author := Get(d, "author");
      match Get(d, "year")
      case None => Unkeyed
      case Some(y) =>
        var creator := if author.Some? then author.value else Get(d, "editor").value;
        Keyed(CitationKey(creator, author.Some?, y), d)
  }

  // ----- what the path promises -----

  /** Moving the URL touches only `note` and `url`. */
  lemma MoveUrlKeeps(d: RecordState, f: string)
    requires f != "note" && f != "url"
    ensures Get(MoveUrl(d), f) == Get(d, f)
  {
  }

  /** Splitting off the series touches only `series`, `number` and `title`. */
  lemma SplitSeriesKeeps(d: RecordState, f: string)
    requires f != "series" && f != "number" && f != "title"
    ensures Get(SplitSeries(d), f) == Get(d, f)
  {
  }

  /** Normalising the creators stops exactly when there are none, and
      otherwise leaves one of them set and the year alone. */
  lemma NormalizeCreatorsKeepsOne(d: RecordState)
    ensures NormalizeCreators(d).None? <==> Get(d, "author").None? && Get(d, "editor").None?
    ensures NormalizeCreators(d).Some? ==>
      var d' := NormalizeCreators(d).value;
      && (Get(d', "author").Some? || Get(d', "editor").Some?)
      && Get(d', "author").Some? == Get(d, "author").Some?
      && Get(d', "year") == Get(d, "year")
  {
  }

  /** Tidying leaves the creators and the year alone. */
  lemma TidyKeepsCreators(d: RecordState)
    ensures Get(Tidy(d), "author") == Get(d, "author")
    ensures Get(Tidy(d), "editor") == Get(d, "editor")
    ensures Get(Tidy(d), "year") == Get(d, "year")
  {
    MoveUrlKeeps(d, "author");
    MoveUrlKeeps(d, "editor");
    MoveUrlKeeps(d, "year");
    SplitSeriesKeeps(MoveUrl(d), "author");
    SplitSeriesKeeps(MoveUrl(d), "editor");
    SplitSeriesKeeps(MoveUrl(d), "year");
  }

  /** Filling from a grammar's groups sets exactly the listed fields, each to
      its group, and adds no field when all of them are already there. */
  lemma {:induction false} FillFacts(d: RecordState, m: Groups, gs: seq<string>)
    requires forall g :: g in gs ==> g in d.vals
    ensures var r := Fill(d, m, gs);
      && r.typ == d.typ && r.order == d.order && r.errors == d.errors
      && (forall g :: g in r.vals <==> g in d.vals)
      && (forall g :: Get(r, g) == if g in gs then Group(m, g) else Get(d, g))
    decreases |gs|
  {
    if gs != [] {
      var d1 := Put(d, gs[0], Group(m, gs[0]));
      assert forall g :: g in gs[1..] ==> g in gs;
      FillFacts(d1, m, gs[1..]);
      assert forall g :: g in gs <==> g == gs[0] || g in gs[1..];
    }
  }

  /** The fields of `r` are exactly the slots, in the slots' order, and no
      error is reported yet. */
  ghost predicate SlotFields(r: RecordState) {
    && r.order == Slots && r.errors == []
    && forall g :: g in r.vals <==> g in Slots
  }

  /** Every slot is a field of the blank map. */
  lemma BlankFacts(typ: string)
    ensures SlotFields(Blank(typ))
    ensures forall g :: g in Blank(typ).vals <==> g in Slots
    ensures forall g :: Get(Blank(typ), g) == if g == "author" then Some(Anonymous) else None
  {
  }

  lemma GroupsAreSlots()
    ensures forall g :: g in IncollectionGroups ==> g in Slots
    ensures forall g :: g in ArticleGroups ==> g in Slots
    ensures forall g :: g in OnlineGroups ==> g in Slots
    ensures forall g :: g in BookGroups ==> g in Slots
    ensures forall g :: g in MiscGroups ==> g in Slots
    ensures "author" in Slots && "editor" in Slots
  {
  }

  /** A grammar's groups over the blank map: each listed field holds its
      group, and the fields and their order are still the slots. */
  lemma FilledBlank(typ: string, m: Groups, gs: seq<string>)
    requires forall g :: g in gs ==> g in Slots
    ensures var r := Fill(Blank(typ), m, gs);
      && r.typ == typ && SlotFields(r)
      && (forall g :: g in gs ==> Get(r, g) == Group(m, g))
  {
    BlankFacts(typ);
    FillFacts(Blank(typ), m, gs);
  }

  /** The map `FillBook` fills from, before the book grammar's own groups. */
  lemma BookCreators(d: RecordState, m: Groups) returns (d2: RecordState)
    requires "author" in d.vals && "editor" in d.vals
    ensures FillBook(d, m) == Fill(d2, m, BookGroups)
    ensures d2.typ == d.typ && d2.order == d.order && d2.errors == d.errors
    ensures forall g :: g in d2.vals <==> g in d.vals
    ensures Group(m, "ed").Some? ==> Get(d2, "editor") == Group(m, "author") && Get(d2, "author").None?
    ensures Group(m, "ed").None? ==> Get(d2, "author") == Group(m, "author") && Get(d2, "editor") == Get(d, "editor")
  {
    var d1 := Put(d, "author", Group(m, "author"));
    d2 := if Group(m, "ed").Some? then Put(Put(d1, "editor", Group(m, "author")), "author", None) else d1;
  }

  lemma BookGroupsOmitCreators()
    ensures "author" !in BookGroups && "editor" !in BookGroups
  {
  }

  /** An `(ed.)` book lists its creator as editor and has no author. */
  lemma FillBookFacts(d: RecordState, m: Groups)
    requires "author" in d.vals && "editor" in d.vals
    requires forall g :: g in BookGroups ==> g in d.vals
    ensures var r := FillBook(d, m);
      && r.typ == d.typ && r.order == d.order && r.errors == d.errors
      && (forall g :: g in r.vals <==> g in d.vals)
      && (Group(m, "ed").Some? ==> Get(r, "editor") == Group(m, "author") && Get(r, "author").None?)
      && (Group(m, "ed").None? ==> Get(r, "author") == Group(m, "author") && Get(r, "editor") == Get(d, "editor"))
      && (forall g :: g in BookGroups ==> Get(r, g) == Group(m, g))
  {
    var d2 := BookCreators(d, m);
    FillFacts(d2, m, BookGroups);
    var r := FillBook(d, m);
    BookGroupsOmitCreators();
    assert Get(r, "editor") == Get(d2, "editor");
    assert Get(r, "author") == Get(d2, "author");
  }

  /** Whatever the grammars return, the citation's fields are the slots, in
      the slots' order, and nothing is reported yet. */
  lemma ClassifyShape(gr: Grammars, s: string)
    ensures SlotFields(Classify(gr, s))
  {
    GroupsAreSlots();
    if EditorSearch(s) {
      if gr.incollection(s).Some? {
        FilledBlank("incollection", gr.incollection(s).value, IncollectionGroups);
      } else {
        BlankFacts("incollection");
      }
    } else if gr.article(s).Some? {
      FilledBlank("article", gr.article(s).value, ArticleGroups);
    } else if OnlineArticle(gr, s) {
      FilledBlank("article", gr.onlineArticle(s).value, OnlineGroups);
    } else if PubAddrSearch(s) {
      BlankFacts("book");
      if gr.book(s).Some? {
        BookBlank(gr.book(s).value);
      }
    } else if gr.misc(s).Some? {
      FilledBlank("misc", gr.misc(s).value, MiscGroups);
    } else {
      BlankFacts("misc");
    }
  }

  lemma BookBlank(m: Groups)
    ensures SlotFields(FillBook(Blank("book"), m))
  {
    BlankFacts("book");
    GroupsAreSlots();
    FillBookFacts(Blank("book"), m);
  }

  /** The cascade: the first test that succeeds fixes the type and the
      grammar whose groups fill the map. */
  lemma ClassifyCascade(gr: Grammars, s: string)
    ensures EditorSearch(s) ==>
      Classify(gr, s).typ == "incollection" &&
      (gr.incollection(s).Some? ==>
         forall g :: g in IncollectionGroups ==> Get(Classify(gr, s), g) == Group(gr.incollection(s).value, g))
    ensures !EditorSearch(s) && gr.article(s).Some? ==>
      Classify(gr, s).typ == "article" &&
      forall g :: g in ArticleGroups ==> Get(Classify(gr, s), g) == Group(gr.article(s).value, g)
    ensures !EditorSearch(s) && gr.article(s).None? && OnlineArticle(gr, s) ==>
      Classify(gr, s).typ == "article" &&
      forall g :: g in OnlineGroups ==> Get(Classify(gr, s), g) == Group(gr.onlineArticle(s).value, g)
    ensures !EditorSearch(s) && gr.article(s).None? && !OnlineArticle(gr, s) && PubAddrSearch(s) ==>
      Classify(gr, s).typ == "book"
    ensures !EditorSearch(s) && gr.article(s).None? && !OnlineArticle(gr, s) && !PubAddrSearch(s) ==>
      Classify(gr, s).typ == "misc" &&
      (gr.misc(s).Some? ==> forall g :: g in MiscGroups ==> Get(Classify(gr, s), g) == Group(gr.misc(s).value, g))
  {
    GroupsAreSlots();
    if EditorSearch(s) {
      if gr.incollection(s).Some? {
        FilledBlank("incollection", gr.incollection(s).value, IncollectionGroups);
      } else {
        BlankFacts("incollection");
      }
    } else if gr.article(s).Some? {
      FilledBlank("article", gr.article(s).value, ArticleGroups);
    } else if OnlineArticle(gr, s) {
      FilledBlank("article", gr.onlineArticle(s).value, OnlineGroups);
    } else if PubAddrSearch(s) {
      BlankFacts("book");
      if gr.book(s).Some? {
        FillBookFacts(Blank("book"), gr.book(s).value);
      }
    } else if gr.misc(s).Some? {
      FilledBlank("misc", gr.misc(s).value, MiscGroups);
    } else {
      BlankFacts("misc");
    }
  }

  /** The constructor stops without a key exactly when the grammar left
      neither author nor editor, or no year. */
  lemma UnkeyedIff(gr: Grammars, s: string)
    ensures var d0 := Classify(gr, Strip(s));
      ReadCitation(gr, s).Unkeyed? <==>
        (Get(d0, "author").None? && Get(d0, "editor").None?) || Get(d0, "year").None?
  {
    var d0 := Classify(gr, Strip(s));
    var d := DropDotNote(d0);
    assert Get(d, "author") == Get(d0, "author") && Get(d, "editor") == Get(d0, "editor") && Get(d, "year") == Get(d0, "year");
    NormalizeCreatorsKeepsOne(d);
    if NormalizeCreators(d).Some? {
      TidyKeepsCreators(NormalizeCreators(d).value);
    }
  }

  /** A keyed citation keeps the grammar's type and year, and its key ends
      with the year's first four characters. */
  lemma KeyedFacts(gr: Grammars, s: string)
    requires ReadCitation(gr, s).Keyed?
    ensures var d0 := Classify(gr, Strip(s));
      var c := ReadCitation(gr, s);
      && c.fields.typ == d0.typ
      && Get(c.fields, "year") == Get(d0, "year") && Get(d0, "year").Some?
      && EndsWith(c.key, Take(Get(d0, "year").value, 4))
  {
    var d0 := Classify(gr, Strip(s));
    var d := DropDotNote(d0);
    assert Get(d, "year") == Get(d0, "year") && d.typ == d0.typ;
    NormalizeCreatorsKeepsOne(d);
    var d1 := NormalizeCreators(d).value;
    TidyKeepsCreators(d1);
    assert Tidy(d1).typ == d0.typ;
    var c := ReadCitation(gr, s);
    var y := Take(Get(d0, "year").value, 4);
    assert c.key[|c.key| - |y|..] == y;
  }

  /** From an author, the key starts with the surname part of the first
      author, its spaces erased; it holds neither a space nor a comma. */
  lemma AuthorPartFacts(creator: string)
    ensures CreatorPart(creator, true) == Without(Split(creator, ",")[0], {' '})
    ensures ' ' !in CreatorPart(creator, true) && ',' !in CreatorPart(creator, true)
  {
    var h := Split(creator, ",")[0];
    var r := CreatorPart(creator, true);
    SplitPiecesAvoidChar(creator, ',');
    SplitPiecesAvoidChar(h, ' ');
    JoinAvoids(Split(h, " "), "", ' ');
    assert ' ' !in r;
    ReplaceKeepsErasure(h, " ", "", {' '});
    WithoutAbsent(r, {' '});
    WithoutChars(h, {' '});
  }

  /** From an editor, the key starts with the first word of the editor
      text: a prefix of it without spaces or commas that runs to the end of
      the text or to its first space or comma. */
  lemma EditorPartFacts(creator: string)
    ensures CreatorPart(creator, false) <= creator
    ensures ' ' !in CreatorPart(creator, false) && ',' !in CreatorPart(creator, false)
    ensures var r := CreatorPart(creator, false);
      |r| == |creator| || creator[|r|] == ' ' || creator[|r|] == ','
  {
    var h := Split(creator, ",")[0];
    var r := CreatorPart(creator, false);
    SplitHeadPrefix(creator, ",");
    SplitHeadPrefix(h, " ");
    SplitPiecesAvoidChar(creator, ',');
    SplitPiecesAvoidChar(h, ' ');
    PrefixChars(r, h);
    SplitHeadEnds(creator, ",");
    SplitHeadEnds(h, " ");
    if |r| < |h| {
      assert h[|r|..][0] == ' ';
      assert creator[|r|] == h[|r|];
    } else if |h| < |creator| {
      assert creator[|h|..][0] == ',';
    }
  }

  /** A single creator (no " and ", no "&") gives the creator part followed
      by the year's first four characters, and nothing between them. */
  lemma SingleCreatorKey(creator: string, fromAuthor: bool, year: string)
    requires !Contains(creator, " and ") && !Contains(creator, "&")
    ensures CitationKey(creator, fromAuthor, year) == CreatorPart(creator, fromAuthor) + Take(year, 4)
  {
    CountZeroIff(creator, " and ");
    CountZeroIff(creator, "&");
  }

  /** Three or more creators, counting each " and " and each "&", give
      "EtAl" between the creator part and the year. */
  lemma ManyCreatorsKey(creator: string, fromAuthor: bool, year: string)
    requires CreatorCount(creator) > 2
    ensures CitationKey(creator, fromAuthor, year) == CreatorPart(creator, fromAuthor) + "EtAl" + Take(year, 4)
  {
  }

  /** The last piece of a split is a suffix of the text. */
  lemma {:induction false} JoinEndsWithLast(ps: seq<string>, sep: string)
    requires |ps| >= 1
    ensures EndsWith(Join(ps, sep), Last(ps))
    decreases |ps|
  {
    if |ps| > 1 {
      JoinEndsWithLast(ps[1..], sep);
      var j := Join(ps[1..], sep);
      assert Join(ps, sep) == ps[0] + sep + j;
      assert Last(ps) == Last(ps[1..]);
      var n := |ps[0] + sep + j|;
      assert (ps[0] + sep + j)[n - |Last(ps)|..] == j[|j| - |Last(ps)|..];
    }
  }

  /** One occurrence of the separator cuts the text in two pieces that avoid it. */
  lemma SplitTwo(s: string, sep: string)
    requires |sep| > 0 && Count(s, sep) == 1
    ensures s == Split(s, sep)[0] + sep + Last(Split(s, sep))
    ensures !Contains(Split(s, sep)[0], sep) && !Contains(Last(Split(s, sep)), sep)
  {
    var ps := Split(s, sep);
    SplitJoin(s, sep);
    SplitPiecesAvoidSep(s, sep);
    assert ps[1..] == [ps[1]];
  }

  /** Two creators (one " and " and no "&", or one "&" and no " and ") put
      the second creator's surname between the creator part and the year.
      The second creator is what follows the " and " (the whole text when
      there is none), stripped; its surname is the part before a comma, else
      the last word after a space, else the whole of it. */
  lemma TwoCreatorsKey(creator: string, fromAuthor: bool, year: string)
    requires CreatorCount(creator) == 2
    ensures Contains(creator, " and ") ==>
      && creator == Split(creator, " and ")[0] + " and " + Last(Split(creator, " and "))
      && !Contains(Split(creator, " and ")[0], " and ") && !Contains(Last(Split(creator, " and ")), " and ")
    ensures !Contains(creator, " and ") ==> Strip(Last(Split(creator, " and "))) == Strip(creator)
    ensures var second := Strip(Last(Split(creator, " and ")));
      var key := CitationKey(creator, fromAuthor, year);
      var head := CreatorPart(creator, fromAuthor);
      && (Contains(second, ",") ==>
            var surname := Split(second, ",")[0];
            key == head + surname + Take(year, 4) && surname <= second && ',' !in surname)
      && (!Contains(second, ",") && Contains(second, " ") ==>
            var surname := Last(Split(second, " "));
            key == head + surname + Take(year, 4) && EndsWith(second, surname)
            && ' ' !in surname && ',' !in surname)
      && (!Contains(second, ",") && !Contains(second, " ") ==> key == head + second + Take(year, 4))
  {
    CountZeroIff(creator, " and ");
    if Contains(creator, " and ") {
      SplitTwo(creator, " and ");
    } else {
      SplitNoSep(creator, " and ");
    }
    var second := Strip(Last(Split(creator, " and ")));
    assert CitationKey(creator, fromAuthor, year)
      == CreatorPart(creator, fromAuthor) + SecondSurname(creator) + Take(year, 4);
    SurnameFacts(second);
  }

  /** The surname of a second creator: the part before a comma, else the
      last word, else all of it; it holds no comma, and a last word no space. */
  lemma SurnameFacts(second: string)
    ensures Contains(second, ",") ==>
      Split(second, ",")[0] <= second && ',' !in Split(second, ",")[0]
    ensures !Contains(second, ",") && Contains(second, " ") ==>
      var surname := Last(Split(second, " "));
      EndsWith(second, surname) && ' ' !in surname && ',' !in surname
  {
    if Contains(second, ",") {
      SplitHeadPrefix(second, ",");
      SplitPiecesAvoidChar(second, ',');
    } else if Contains(second, " ") {
      var ws := Split(second, " ");
      SplitJoin(second, " ");
      JoinEndsWithLast(ws, " ");
      SplitPiecesAvoidChar(second, ' ');
      assert ' ' !in ws[|ws| - 1];
      if ',' in Last(ws) {
        var k :| 0 <= k < |Last(ws)| && Last(ws)[k] == ',';
        assert second[|second| - |Last(ws)| + k] == ',';
        CharContains(second, ',');
      }
    }
  }

  /** The example of the regression tests: after the " &" of the author list
      became " and ", four creators with a single " and " count as two, and
      the second is "Ian Roberts". */
  lemma JohnsonRobertsKey(author: string, year: string)
    requires author == "Johnson, Kyle, Mark Baker and  Ian Roberts" && year == "1989"
    ensures CitationKey(author, true, year) == "JohnsonRoberts1989"
  {
    var a, b := JohnsonPieces(author);
    ExampleKey(author, a, b, "Johnson", "Ian", "Roberts", year);
  }

  lemma JohnsonPieces(author: string) returns (a: string, b: string)
    requires author == "Johnson, Kyle, Mark Baker and  Ian Roberts"
    ensures author == a + " and " + b && b == " " + "Ian" + " " + "Roberts"
    ensures 'd' !in a && 'd' !in b && '&' !in author
    ensures 7 < |a| && a[..8] == "Johnson" + "," && ',' !in b
  {
    a, b := "Johnson, Kyle, Mark Baker", " Ian Roberts";
    assert author == a + " and " + b;
    JohnsonChars(a, b);
    JohnsonParts(a, b);
  }

  lemma JohnsonChars(a: string, b: string)
    requires a == "Johnson, Kyle, Mark Baker" && b == " Ian Roberts"
    ensures 'd' !in a && 'd' !in b && '&' !in a && '&' !in b
  {
  }

  lemma JohnsonParts(a: string, b: string)
    requires a == "Johnson, Kyle, Mark Baker" && b == " Ian Roberts"
    ensures b == " " + "Ian" + " " + "Roberts" && ',' !in b
    ensures 7 < |a| && a[..8] == "Johnson" + ","
  {
  }

  /** The key of `a + " and " + b` when `a` starts with the surname `first`
      and a comma, and `b` is a space, a word, a space and the surname `last`. */
  lemma ExampleKey(c: string, a: string, b: string, first: string, given: string, last: string, year: string)
    requires c == a + " and " + b && b == " " + given + " " + last
    requires 'd' !in a && 'd' !in b && '&' !in c
    requires |first| < |a| && a[..|first| + 1] == first + "," && ' ' !in first && ',' !in first
    requires ',' !in b && ' ' !in given && ' ' !in last
    requires |given| > 0 && |last| > 0 && !IsSpace(given[0]) && !IsSpace(last[|last| - 1])
    requires |year| == 4
    ensures CitationKey(c, true, year) == first + last + year
  {
    ExampleCount(c, a, b);
    ExampleHead(c, a, first);
    ExampleSurname(c, a, b, given, last);
  }

  lemma ExampleCount(c: string, a: string, b: string)
    requires c == a + " and " + b && 'd' !in a && 'd' !in b && '&' !in c
    ensures Split(c, " and ") == [a, b] && CreatorCount(c) == 2
  {
    assert " and "[3] == 'd' && " and "[..3] == " an";
    NoEarlySep(a, " and ", 3);
    NoSubstring(b, " and ", 'd');
    NoSubstring(c, "&", '&');
    SplitFirst(a, " and ", b);
    SplitNoSep(b, " and ");
    CountZeroIff(c, "&");
  }

  lemma ExampleHead(c: string, a: string, first: string)
    requires a <= c && |first| < |a| && a[..|first| + 1] == first + "," && ' ' !in first && ',' !in first
    ensures CreatorPart(c, true) == first
  {
    assert c == first + "," + c[|first| + 1..];
    NoEarlySep(first, ",", 0);
    SplitFirst(first, ",", c[|first| + 1..]);
    ReplaceAbsentChar(first, ' ', "");
  }

  lemma ExampleSurname(c: string, a: string, b: string, given: string, last: string)
    requires Split(c, " and ") == [a, b] && b == " " + given + " " + last
    requires ',' !in b && ' ' !in given && ' ' !in last
    requires |given| > 0 && |last| > 0 && !IsSpace(given[0]) && !IsSpace(last[|last| - 1])
    ensures SecondSurname(c) == last
  {
    var second := given + " " + last;
    assert b[1..] == second;
    assert LStrip(b) == LStrip(second) == second;
    StripClean(second);
    assert ',' !in second;
    NoSubstring(second, ",", ',');
    assert second[|given|] == ' ';
    CharContains(second, ' ');
    NoEarlySep(given, " ", 0);
    NoSubstring(last, " ", ' ');
    SplitFirst(given, " ", last);
    SplitNoSep(last, " ");
    assert Split(second, " ") == [given, last];
  }

  /** A text lacking one of a pattern's characters does not contain it. */
  lemma NoSubstring(s: string, sub: string, c: char)
    requires c in sub && c !in s
    ensures !Contains(s, sub)
  {
    if Contains(s, sub) {
      ContainsChars(s, sub);
    }
  }

  /** A series split keeps the title's text: the new title, " (", the series
      and then the rest of the old title, whose number is a non-empty run of
      digits, '-', '.' and '/'. Without a match nothing changes. */
  lemma SplitSeriesShape(d: RecordState)
    ensures var t := Get(d, "title");
      !(Truthy(t) && SeriesNumber(t.value).Some?) ==> SplitSeries(d) == d
    ensures var t := Get(d, "title"); var r := SplitSeries(d);
      Truthy(t) && SeriesNumber(t.value).Some? ==>
        && Get(r, "title").Some? && Get(r, "series").Some? && Get(r, "number").Some?
        && Get(r, "title").value + " (" + Get(r, "series").value <= t.value
        && '\n' !in Get(r, "title").value && '\n' !in Get(r, "series").value
        && |Get(r, "number").value| > 0
        && forall k :: 0 <= k < |Get(r, "number").value| ==> IsSeriesNumberChar(Get(r, "number").value[k])
  {
    var t := Get(d, "title");
    if Truthy(t) && SeriesNumber(t.value).Some? {
      var s := t.value;
      var m := SeriesNumber(s).value;
      assert SeriesShape(s, m) by { SeriesNumberShape(s); }
      var r := SplitSeries(d);
      assert r == Put(Put(Put(d, "series", Some(s[m.title + 2..m.seriesEnd])), "number", Some(s[m.number..m.close])),
                      "title", Some(s[..m.title]));
      assert Get(r, "title") == Some(s[..m.title]);
      assert Get(r, "series") == Some(s[m.title + 2..m.seriesEnd]);
      assert Get(r, "number") == Some(s[m.number..m.close]);
      assert s[..m.title] + " (" + s[m.title + 2..m.seriesEnd] == s[..m.seriesEnd];
    }
  }

  /** A URL moved out of a note is a non-empty, space-free part of the old
      note, and the note no longer holds it as written. Without a URL in a
      non-empty note nothing changes. */
  lemma MoveUrlShape(d: RecordState)
    ensures var n := Get(d, "note");
      !(Truthy(n) && UrlSearch(n.value).Some?) ==> MoveUrl(d) == d
    ensures var n := Get(d, "note"); var r := MoveUrl(d);
      Truthy(n) && UrlSearch(n.value).Some? ==>
        && Get(r, "url").Some? && Get(r, "note").Some?
        && var url := Get(r, "url").value;
        && |url| > 0 && ' ' !in url && Contains(n.value, url)
        && Get(r, "note").value == Strip(Replace(n.value, url, ""))
  {
    var n := Get(d, "note");
    if Truthy(n) && UrlSearch(n.value).Some? {
      MovedUrl(d, n.value, UrlSearch(n.value).value);
    }
  }

  /** The URL found at `ij` in the note `s`. */
  lemma MovedUrl(d: RecordState, s: string, ij: (nat, nat))
    requires Get(d, "note") == Some(s) && s != "" && UrlSearch(s) == Some(ij)
    ensures var r := MoveUrl(d);
      && Get(r, "url") == Some(s[ij.0..ij.1]) && Get(r, "note") == Some(Strip(Replace(s, s[ij.0..ij.1], "")))
      && |s[ij.0..ij.1]| > 0 && ' ' !in s[ij.0..ij.1] && Contains(s, s[ij.0..ij.1])
  {
    assert ij.0 < ij.1 <= |s| && forall k :: ij.0 <= k < ij.1 ==> s[k] != ' ' by { UrlSearchSpan(s); }
    var url := s[ij.0..ij.1];
    forall k | 0 <= k < |url| ensures url[k] != ' ' {
      assert url[k] == s[ij.0 + k];
    }
    MovedUrlFields(d, s, ij);
    ContainsAt(s, url, ij.0);
  }

  lemma MovedUrlFields(d: RecordState, s: string, ij: (nat, nat))
    requires Get(d, "note") == Some(s) && s != "" && UrlSearch(s) == Some(ij) && ij.0 <= ij.1 <= |s|
    ensures Get(MoveUrl(d), "url") == Some(s[ij.0..ij.1])
    ensures Get(MoveUrl(d), "note") == Some(Strip(Replace(s, s[ij.0..ij.1], "")))
  {
    var url := s[ij.0..ij.1];
    assert MoveUrl(d) == Put(Put(d, "note", Some(Strip(Replace(s, url, "")))), "url", Some(url));
  }

  /** A citation read from free text has nothing reported yet. */
  lemma KeyedNoErrors(gr: Grammars, s: string)
    requires ReadCitation(gr, s).Keyed?
    ensures ReadCitation(gr, s).fields.errors == []
  {
    ClassifyShape(gr, Strip(s));
  }
}
