/** The `Record` class of bibtools.py as an object whose attributes its
    methods update in place, the module-level `keys` registry, and the
    batch driver `normalize`. Each method is proved against the pure
    description of the same step in the `Conform`, `Citation` and `Output`
    modules. */
module Bibtools {
  import opened PyStr
  import opened BibPatterns
  import opened FieldState
  import opened Entry
  import opened Output
  import Passes = Conform
  import Citation

  /** `d[k] = True` for a key `d` already holds; any other key leaves `d` as it is. */
  function Marked(d: map<string, bool>, k: string): (d': map<string, bool>)
    ensures d'.Keys == d.Keys
    ensures k in d ==> d'[k]
    ensures forall j :: j in d && j != k ==> d'[j] == d[j]
  {
    if k in d then d[k := true] else d
  }

  /** The module-level `keys` dictionary. */
  class KeyRegistry {
    var keys: map<string, bool>

    constructor ()
      ensures keys == map[]
    {
      keys := map[];
    }

    /** The duplicate test of the file path: it only marks a key that is
        already registered, so a fresh key is never added. */
    method Check(key: string) returns (duplicate: bool)
      modifies this
      ensures duplicate <==> key in old(keys)
      ensures keys == Marked(old(keys), key)
    {
      duplicate := key in keys;
      if duplicate {
        keys := keys[key := true];
      }
    }
  }

  /** What a method that may raise leaves behind: the exception, or the new state. */
  function Ended(raised: Option<string>, r: RecordState): Outcome<RecordState> {
    match raised
    case Some(e) => Raised(e)
    case None => Done(r)
  }

  /** The step a loop over field names applies, name after name. */
  function Steps(r: RecordState, names: seq<string>, step: (RecordState, string) -> RecordState): RecordState
    decreases |names|
  {
    if names == [] then r else step(Steps(r, names[..|names| - 1], step), names[|names| - 1])
  }

  /** Two names: the loops over (`title`, `booktitle`) and (`author`, `editor`). */
  lemma StepsPair(r: RecordState, a: string, b: string, step: (RecordState, string) -> RecordState)
    ensures Steps(r, [a, b], step) == step(step(r, a), b)
  {
    assert [a, b][..1] == [a];
    assert [a][..0] == [];
    assert Steps(r, [a], step) == step(r, a);
  }

  /** A record. An attribute Python never assigns on the path taken is
      modelled by a flag (`hasFields`, `configured`) or by `None`. */
  class Record {
    var typ: string
    var key: Option<string>
    var fields: map<string, Option<string>>
    var order: seq<string>           // insertion order of `fields`
    var hasFields: bool              // `self.fields` has been assigned
    var errors: seq<string>
    var configured: bool             // `inkeysd` and `restrict` have been assigned
    var inkeys: set<string>
    var restrict: bool
    var bibstring: Option<string>
    var orig: Option<string>

    /** The part of the record the passes of `conform` work on. */
    function State(): RecordState
      reads this
    {
      RecordState(typ, fields, order, errors)
    }

    /** The attributes the passes of `conform` leave alone. */
    ghost function Rest(): (Option<string>, bool, bool, set<string>, bool, Option<string>, Option<string>)
      reads this
    {
      (key, hasFields, configured, inkeys, restrict, bibstring, orig)
    }

    /** `self.errors = []`; nothing else is set yet. */
    constructor ()
      ensures typ == "" && key == None && fields == map[] && order == [] && errors == []
      ensures !hasFields && !configured && inkeys == {} && !restrict
      ensures bibstring == None && orig == None
    {
      typ := "";
      key := None;
      fields := map[];
      order := [];
      hasFields := false;
      errors := [];
      configured := false;
      inkeys := {};
      restrict := false;
      bibstring := None;
      orig := None;
    }

    /** The attributes the file path sets before `conform`: the type, the
        key and the fields of the entry, `inkeysd` and `restrict`. */
    constructor Entry(k: string, st: RecordState, inkeys: set<string>, restrict: bool)
      requires st.errors == []
      ensures State() == st && key == Some(k) && hasFields
      ensures configured && this.inkeys == inkeys && this.restrict == restrict
      ensures bibstring == None && orig == None
    {
      typ := st.typ;
      key := Some(k);
      fields := st.vals;
      order := st.order;
      hasFields := true;
      errors := [];
      configured := true;
      this.inkeys := inkeys;
      this.restrict := restrict;
      bibstring := None;
      orig := None;
    }

    /** A citation without a recognisable creator or year: `orig` and
        `bibstring` are the stripped line, `typ` what the cascade found. */
    constructor Line(t: string, typ: string)
      ensures this.typ == typ && key == None && fields == map[] && order == [] && errors == []
      ensures !hasFields && !configured && orig == Some(t) && bibstring == Some(t)
    {
      this.typ := typ;
      key := None;
      fields := map[];
      order := [];
      hasFields := false;
      errors := [];
      configured := false;
      inkeys := {};
      restrict := false;
      bibstring := Some(t);
      orig := Some(t);
    }

    /** The attributes the one-line path sets before `conform`: the fields
        read from the citation and the key formed from creators and year. */
    constructor Cited(t: string, k: string, d: RecordState)
      requires d.errors == []
      ensures State() == d && key == Some(k) && hasFields && !configured
      ensures orig == Some(t) && bibstring == Some(t)
    {
      typ := d.typ;
      key := Some(k);
      fields := d.vals;
      order := d.order;
      hasFields := true;
      errors := [];
      configured := false;
      inkeys := {};
      restrict := false;
      bibstring := Some(t);
      orig := Some(t);
    }

    /** Takes over a state computed by a straight-line pass. */
    method Assign(r: RecordState)
      modifies this
      ensures State() == r && Rest() == old(Rest())
    {
      typ := r.typ;
      fields := r.vals;
      order := r.order;
      errors := r.errors;
    }

    // ----- the loops of conform -----

    /** `handleerror(m)` */
    method HandleError(m: string)
      modifies this
      ensures State() == FieldState.HandleError(old(State()), m)
      ensures Rest() == old(Rest())
    {
      if m !in fields || fields[m].None? {
        if m !in fields {
          order := order + [m];
        }
        fields := fields[m := Some(Placeholder(m))];
        errors := errors + ["missing " + m];
      }
    }

    /** `for m in ms: self.handleerror(m)` */
    method HandleMandatory(ms: seq<string>)
      modifies this
      ensures State() == HandleAll(old(State()), ms)
      ensures Rest() == old(Rest())
    {
      for i := 0 to |ms|
        invariant State() == HandleAll(old(State()), ms[..i])
        invariant Rest() == old(Rest())
      {
        HandleError(ms[i]);
        assert ms[..i + 1][..i] == ms[..i];
      }
      assert ms[..|ms|] == ms;
    }

    /** A loop over field names whose body is `step`. */
    method EachName(names: seq<string>, step: (RecordState, string) -> RecordState)
      modifies this
      ensures State() == Steps(old(State()), names, step)
      ensures Rest() == old(Rest())
    {
      for i := 0 to |names|
        invariant State() == Steps(old(State()), names[..i], step)
        invariant Rest() == old(Rest())
      {
        Assign(step(State(), names[i]));
        assert names[..i + 1][..i] == names[..i];
      }
      assert names[..|names|] == names;
    }

    /** `conformtitles` */
    method ConformTitles()
      modifies this
      ensures State() == Passes.ConformTitles(old(State()))
      ensures Rest() == old(Rest())
    {
      StepsPair(State(), "title", "booktitle", Passes.TitleStep);
      EachName(["title", "booktitle"], Passes.TitleStep);
    }

    /** `conforminitials` */
    method ConformInitials()
      modifies this
      ensures State() == Passes.ConformInitialsPass(old(State()))
      ensures Rest() == old(Rest())
    {
      StepsPair(State(), "author", "editor", Passes.InitialsStep);
      EachName(["author", "editor"], Passes.InitialsStep);
    }

    /** `correctampersand`: the loop over the creators, then the address. */
    method CorrectAmpersand()
      modifies this
      ensures State() == Passes.CorrectAmpersand(old(State()))
      ensures Rest() == old(Rest())
    {
      StepsPair(State(), "author", "editor", Passes.AmpersandStep);
      EachName(["author", "editor"], Passes.AmpersandStep);
      if "address" in fields && fields["address"].Some? {
        fields := fields["address" := Some(Replace(fields["address"].value, " & ", " \\& "))];
      }
    }

    /** `checketal` */
    method CheckEtAl()
      modifies this
      ensures State() == Passes.CheckEtAl(old(State()))
      ensures Rest() == old(Rest())
    {
      StepsPair(State(), "author", "editor", Passes.EtAlStep);
      EachName(["author", "editor"], Passes.EtAlStep);
    }

    /** `checkand` */
    method CheckAnd()
      modifies this
      ensures State() == Passes.CheckAnd(old(State()))
      ensures Rest() == old(Rest())
    {
      StepsPair(State(), "author", "editor", Passes.AndStep);
      EachName(["author", "editor"], Passes.AndStep);
    }

    /** `checkquestionmarks`: the fields in insertion order. */
    method CheckQuestionMarks()
      modifies this
      ensures State() == Passes.CheckQuestionMarks(old(State()))
      ensures Rest() == old(Rest())
    {
      var fs := order;
      for i := 0 to |fs|
        invariant State() == Passes.ReportQuestionMarks(old(State()), fs[..i])
        invariant Rest() == old(Rest())
      {
        Passes.QuestionMarksOnlyReport(old(State()), fs[..i]);
        var f := fs[i];
        if f in fields && fields[f].Some? && Contains(fields[f].value, "??") {
          errors := errors + ["?? in " + f];
        }
        assert fs[..i + 1][..i] == fs[..i];
      }
      assert fs[..|fs|] == fs;
    }

    /** `checkarticle` */
    method CheckArticle(voc: Passes.Vocabulary)
      modifies this
      ensures State() == Passes.CheckArticle(voc, old(State()))
      ensures Rest() == old(Rest())
    {
      if typ == "article" {
        Assign(Passes.NumberAsVolume(State()));
        HandleMandatory(Passes.ArticleMandatory);
        Assign(Passes.AuthorSortname(voc, Passes.PagesPlaceholder(State())));
      }
    }

    /** `checkbook`; `placelookup` may raise. */
    method CheckBook(voc: Passes.Vocabulary) returns (raised: Option<string>)
      modifies this
      ensures match Passes.CheckBook(voc, old(State()))
        case Raised(e) => raised == Some(e)
        case Done(r) => raised == None && State() == r
      ensures Rest() == old(Rest())
    {
      raised := None;
      if typ == "book" {
        match Passes.PlaceLookup(State())
        case Raised(e) =>
          raised := Some(e);
          return;
        case Done(r1) =>
          Assign(r1);
          HandleMandatory(Passes.BookMandatory);
          Assign(Passes.BookCreators(voc, Passes.SeriesVolumeToNumber(State())));
      }
    }

    /** `checkincollection`; `placelookup` may raise. */
    method CheckIncollection(voc: Passes.Vocabulary) returns (raised: Option<string>)
      modifies this
      ensures match Passes.CheckIncollection(voc, old(State()))
        case Raised(e) => raised == Some(e)
        case Done(r) => raised == None && State() == r
      ensures Rest() == old(Rest())
    {
      raised := None;
      if typ == "incollection" {
        match Passes.PlaceLookup(State())
        case Raised(e) =>
          raised := Some(e);
          return;
        case Done(r1) =>
          Assign(r1);
          HandleMandatory(Passes.ChapterMandatory);
          Assign(Passes.AuthorSortname(voc, Passes.PagesPlaceholder(State())));
          if !Truthy(Get(State(), "crossref")) {
            HandleError("booktitle");
            if !Contains(Lower(Get(State(), "booktitle").value), "proceedings") {
              HandleMandatory(Passes.VolumeMandatory);
            }
          }
      }
    }

    /** `checklanguagenames` */
    method CheckLanguageNames(voc: Passes.Vocabulary)
      modifies this
      ensures State() == Passes.CheckLanguageNames(voc, old(State()))
      ensures Rest() == old(Rest())
    {
      var step := (r, t) => Passes.LanguageNamesStep(voc, r, t);
      StepsPair(State(), "title", "booktitle", step);
      EachName(["title", "booktitle"], step);
    }

    /** The repairs at the head of `conform`. */
    method Repairs() returns (raised: Option<string>)
      modifies this
      ensures Ended(raised, State()) == Passes.Repairs(old(State()))
      ensures Rest() == old(Rest())
    {
      raised := None;
      Assign(Passes.DashPagesPass(Passes.BackfillBooktitle(State())));
      ConformTitles();
      match Passes.CheckVolumeNumber(State())
      case Raised(e) =>
        raised := Some(e);
      case Done(r2) =>
        Assign(r2);
    }

    /** The checks on names, edition, url and question marks, and `checkarticle`. */
    method Checks(voc: Passes.Vocabulary)
      modifies this
      ensures State() == Passes.Checks(voc, old(State()))
      ensures Rest() == old(Rest())
    {
      ConformInitials();
      CorrectAmpersand();
      CheckEtAl();
      CheckAnd();
      Assign(Passes.CheckUrl(Passes.CheckUrlDate(Passes.CheckEdition(State()))));
      CheckQuestionMarks();
      CheckArticle(voc);
    }

    /** `checkthesis`, `checkbook`, `checkincollection`, `checklanguagenames`. */
    method TypeChecks(voc: Passes.Vocabulary) returns (raised: Option<string>)
      modifies this
      ensures Ended(raised, State()) == Passes.TypeChecks(voc, old(State()))
      ensures Rest() == old(Rest())
    {
      match Passes.CheckThesis(State())
      case Raised(e) =>
        raised := Some(e);
        return;
      case Done(r5) =>
        Assign(r5);
      raised := CheckBook(voc);
      if raised.Some? {
        return;
      }
      raised := CheckIncollection(voc);
      if raised.Some? {
        return;
      }
      CheckLanguageNames(voc);
    }

    /** `conform`: the passes in their order; `raised` is the exception
        that escapes, after which the record is discarded. */
    method Conform(voc: Passes.Vocabulary) returns (raised: Option<string>)
      modifies this
      ensures Ended(raised, State()) == Passes.Conform(voc, old(State()))
      ensures Rest() == old(Rest())
    {
      raised := Repairs();
      if raised.Some? {
        return;
      }
      Checks(voc);
      raised := TypeChecks(voc);
    }

    /** The tail of the constructor: `conform()`, then `bibstring` from
        the conformed fields. `r0` names the state it starts from. */
    method Complete(voc: Passes.Vocabulary, k: string, ghost r0: RecordState) returns (raised: Option<string>)
      requires State() == r0
      modifies this
      ensures Ended(raised, State()) == Passes.Conform(voc, r0)
      ensures raised == None ==> bibstring == Some(Bibstring(State(), k))
      ensures key == old(key) && hasFields == old(hasFields) && orig == old(orig)
      ensures configured == old(configured) && inkeys == old(inkeys) && restrict == old(restrict)
    {
      raised := Conform(voc);
      if raised == None {
        bibstring := Some(Bibstring(State(), k));
      }
    }

    // ----- bibtex() -----

    /** `bibtex()`. Reading `self.restrict` or `self.fields` where the
        constructor never set them raises `AttributeError`. */
    method Bibtex() returns (out: Outcome<string>)
      ensures !configured ==> out == Raised("AttributeError")
      ensures configured && Filtered(restrict, inkeys, key) ==> out == Done("")
      ensures configured && !Filtered(restrict, inkeys, key) && !hasFields ==> out == Raised("AttributeError")
      ensures configured && !Filtered(restrict, inkeys, key) && hasFields ==> out == Done(BibtexText(State(), Str(key)))
    {
      if !configured {
        return Raised("AttributeError");
      }
      if Filtered(restrict, inkeys, key) {
        return Done("");
      }
      if !hasFields {
        return Raised("AttributeError");
      }
      return Done(BibtexText(State(), Str(key)));
    }

    // ----- the two ways of building a record -----

    /** `Record(s, fromfile=True, inkeysd, restrict)`: an entry of a `.bib` file. */
    static method FromFile(voc: Passes.Vocabulary, s: string, inkeys: set<string>, restrict: bool, reg: KeyRegistry)
      returns (out: Outcome<Record>)
      modifies reg
      ensures ParseEntry(s).NoEntry? ==>
        reg.keys == old(reg.keys) && out.Done? && fresh(out.value) && !out.value.configured && out.value.key == None
      ensures ParseEntry(s).Unpaired? ==>
        reg.keys == Marked(old(reg.keys), ParseEntry(s).key) && out == Raised("AttributeError")
      ensures ParseEntry(s).Fields? ==>
        && reg.keys == Marked(old(reg.keys), ParseEntry(s).key)
        && Made(out) == Passes.Conform(voc, Flagged(ParseEntry(s).fields, ParseEntry(s).key, old(reg.keys).Keys))
        && (out.Done? ==> fresh(out.value) && Loaded(out.value, ParseEntry(s).key, inkeys, restrict))
    {
      var e := ParseEntry(s);
      if e.NoEntry? {
        var rec := new Record();
        return Done(rec);
      }
      var duplicate := reg.Check(e.key);
      if e.Unpaired? {
        // the first line of `conform` reads `self.fields`, which was never
        // assigned; the half-built record goes with the exception
        return Raised("AttributeError");
      }
      EntryTyp(s);
      out := LoadEntry(voc, e.key, e.fields, inkeys, restrict, duplicate);
    }

    /** The file path once the entry has been read into `st` and its key
        looked up in the registry: the report of a duplicate, then the
        tail of the constructor. */
    static method LoadEntry(voc: Passes.Vocabulary, k: string, st: RecordState, inkeys: set<string>, restrict: bool, duplicate: bool)
      returns (out: Outcome<Record>)
      requires st.errors == []
      ensures Made(out) == Passes.Conform(voc, if duplicate then Err(st, "duplicate key " + k) else st)
      ensures out.Done? ==> fresh(out.value) && Loaded(out.value, k, inkeys, restrict)
    {
      ghost var st' := if duplicate then Err(st, "duplicate key " + k) else st;
      var rec := new Record.Entry(k, st, inkeys, restrict);
      if duplicate {
        rec.Assign(Err(rec.State(), "duplicate key " + k));
      }
      var raised := rec.Complete(voc, k, st');
      if raised.Some? {
        return Raised(raised.value);
      }
      return Done(rec);
    }

    /** `Record(s)`: a one-line free-text citation. */
    static method FromLine(voc: Passes.Vocabulary, gr: Citation.Grammars, s: string) returns (out: Outcome<Record>)
      ensures Citation.ReadCitation(gr, s).Unkeyed? ==>
        && out.Done? && fresh(out.value)
        && out.value.typ == Citation.Classify(gr, Strip(s)).typ && out.value.key == None
        && !out.value.hasFields && !out.value.configured && out.value.errors == []
        && out.value.orig == Some(Strip(s)) && out.value.bibstring == Some(Strip(s))
      ensures Citation.ReadCitation(gr, s).Keyed? ==>
        && Made(out) == Passes.Conform(voc, Citation.ReadCitation(gr, s).fields)
        && (out.Done? ==>
              && fresh(out.value) && out.value.key == Some(Citation.ReadCitation(gr, s).key)
              && out.value.hasFields && !out.value.configured && out.value.orig == Some(Strip(s))
              && out.value.bibstring == Some(Bibstring(out.value.State(), Citation.ReadCitation(gr, s).key)))
    {
      var t := Strip(s);
      var c := Citation.ReadCitation(gr, s);
      if c.Unkeyed? {
        var rec := new Record.Line(t, Citation.Classify(gr, t).typ);
        return Done(rec);
      }
      Citation.KeyedNoErrors(gr, s);
      out := LoadLine(voc, t, c.key, c.fields);
    }

    /** The one-line path once a key has been formed from the citation. */
    static method LoadLine(voc: Passes.Vocabulary, t: string, k: string, d: RecordState) returns (out: Outcome<Record>)
      requires d.errors == []
      ensures Made(out) == Passes.Conform(voc, d)
      ensures out.Done? ==>
        && fresh(out.value) && out.value.key == Some(k)
        && out.value.hasFields && !out.value.configured && out.value.orig == Some(t)
        && out.value.bibstring == Some(Bibstring(out.value.State(), k))
    {
      var rec := new Record.Cited(t, k, d);
      var raised := rec.Complete(voc, k, d);
      if raised.Some? {
        return Raised(raised.value);
      }
      return Done(rec);
    }
  }

  /** The outcome of building a record, as the state it ends in. */
  ghost function Made(out: Outcome<Record>): Outcome<RecordState>
    reads if out.Done? then {out.value} else {}
  {
    match out
    case Raised(e) => Raised(e)
    case Done(rec) => Done(rec.State())
  }

  /** `restrict and key not in inkeysd` */
  predicate Filtered(restrict: bool, inkeys: set<string>, key: Option<string>) {
    restrict && (key.None? || key.value !in inkeys)
  }

  /** A record built from a `.bib` entry whose conform pass went through. */
  ghost predicate Loaded(rec: Record, key: string, inkeys: set<string>, restrict: bool)
    reads rec
  {
    && rec.key == Some(key) && rec.hasFields
    && rec.configured && rec.inkeys == inkeys && rec.restrict == restrict
    && rec.bibstring == Some(Bibstring(rec.State(), key)) && rec.orig == None
  }

  /** The entry's fields after the registry test: a key registered
      before is reported. */
  function Flagged(st: RecordState, k: string, known: set<string>): RecordState {
    if k in known then Err(st, "duplicate key " + k) else st
  }

  /** Filling a dictionary changes neither the type nor the reports. */
  lemma {:induction false} PutAllKeeps(r: RecordState, ps: seq<(string, string)>)
    ensures PutAll(r, ps).typ == r.typ && PutAll(r, ps).errors == r.errors
    decreases |ps|
  {
    if ps != [] {
      PutAllKeeps(Put(r, ps[0].0, Some(ps[0].1)), ps[1..]);
    }
  }

  /** The fields read from an entry carry the entry's type and no reports. */
  lemma EntryTyp(s: string)
    requires ParseEntry(s).Fields?
    ensures ParseEntry(s).fields.typ == ParseEntry(s).typ && ParseEntry(s).fields.errors == []
  {
    var m := TypKeyFields(s).value;
    var g := EntryGroups(s, m);
    PutAllKeeps(RecordState(Lower(g.0), map[], [], []), FieldPairs(Chunks(Strip(g.2))).value);
  }

  // ----- normalize -----

  /** The arguments of `normalize` other than the text, and the vocabulary
      the passes of `conform` consult. */
  datatype Batch = Batch(voc: Passes.Vocabulary, inkeys: set<string>, restrict: bool)

  /** `Record(t, fromfile=True, ...).bibtex()` for one chunk of the file,
      given the keys registered before the call. A chunk the entry pattern
      does not match yields a record whose `restrict` was never assigned. */
  function RenderOne(b: Batch, known: set<string>, t: string): Outcome<string> {
    match ParseEntry(t)
    case NoEntry => Raised("AttributeError")
    case Unpaired(_, _) => Raised("AttributeError")
    case Fields(_, k, st) =>
      match Passes.Conform(b.voc, Flagged(st, k, known))
      case Raised(e) => Raised(e)
      case Done(r) => Done(if Filtered(b.restrict, b.inkeys, Some(k)) then "" else BibtexText(r, k))
  }

  /** The list comprehension of `normalize`: every chunk rendered in turn;
      the first exception escapes. */
  function RenderAll(render: string -> Outcome<string>, ts: seq<string>): Outcome<seq<string>>
    decreases |ts|
  {
    if ts == [] then Done([])
    else
      match RenderAll(render, ts[..|ts| - 1])
      case Raised(e) => Raised(e)
      case Done(bs) =>
        match render(ts[|ts| - 1])
        case Raised(e) => Raised(e)
        case Done(x) => Done(bs + [x])
  }

  /** `[b for b in bibtexs if b]` */
  function NonEmpty(bs: seq<string>): seq<string>
    decreases |bs|
  {
    if bs == [] then []
    else if bs[0] == "" then NonEmpty(bs[1..])
    else [bs[0]] + NonEmpty(bs[1..])
  }

  /** The text before the first record. */
  function Preamble(s: string): string {
    Split(s, "\n@")[0]
  }

  /** The records, sorted and then reversed. */
  function RecordTexts(s: string): seq<string> {
    Reverse(Sorted(Split(s, "\n@")[1..]))
  }

  /** `normalize(s, inkeysd, restrict)` with each record rendered by `render`. */
  function NormalizeText(render: string -> Outcome<string>, s: string): Outcome<string> {
    match RenderAll(render, RecordTexts(s))
    case Raised(e) => Raised(e)
    case Done(bs) => Done(Preamble(s) + "\n" + Join(NonEmpty(bs), "\n\n"))
  }

  /** The renderer `normalize` uses for a batch, given the keys registered before it. */
  function Renderer(b: Batch, known: set<string>): string -> Outcome<string> {
    t => RenderOne(b, known, t)
  }

  /** Once a prefix raises, the whole list raises the same exception. */
  lemma {:induction false} RaisedExtends(render: string -> Outcome<string>, ts: seq<string>, n: nat)
    requires n <= |ts| && RenderAll(render, ts[..n]).Raised?
    ensures RenderAll(render, ts) == RenderAll(render, ts[..n])
    decreases |ts| - n
  {
    if n < |ts| {
      var m := ts[..n + 1];
      assert m[..n] == ts[..n];
      RaisedExtends(render, ts, n + 1);
    } else {
      assert ts[..n] == ts;
    }
  }

  /** The list grows by one rendered chunk at a time. */
  lemma RenderNext(render: string -> Outcome<string>, ts: seq<string>, i: nat, bs: seq<string>)
    requires i < |ts| && RenderAll(render, ts[..i]) == Done(bs)
    ensures render(ts[i]).Raised? ==> RenderAll(render, ts[..i + 1]) == Raised(render(ts[i]).exception)
    ensures render(ts[i]).Done? ==> RenderAll(render, ts[..i + 1]) == Done(bs + [render(ts[i]).value])
  {
    assert ts[..i + 1][..i] == ts[..i];
  }

  /** One chunk through the constructor and `bibtex()`. The registry only
      marks keys it already holds, so the set of its keys stays the same. */
  method RenderEntry(b: Batch, t: string, reg: KeyRegistry) returns (o: Outcome<string>)
    modifies reg
    ensures o == Renderer(b, old(reg.keys).Keys)(t)
    ensures reg.keys.Keys == old(reg.keys).Keys
  {
    var rec := Record.FromFile(b.voc, t, b.inkeys, b.restrict, reg);
    if rec.Raised? {
      return Raised(rec.exception);
    }
    o := rec.value.Bibtex();
  }

  /** `normalize(s, inkeysd, restrict)`; `reg` is the module-level `keys`. */
  method Normalize(b: Batch, s: string, reg: KeyRegistry) returns (out: Outcome<string>)
    modifies reg
    ensures out == NormalizeText(Renderer(b, old(reg.keys).Keys), s)
    ensures reg.keys.Keys == old(reg.keys).Keys
  {
    ghost var known := reg.keys.Keys;
    ghost var render := Renderer(b, known);
    var rest := Reverse(Sorted(Split(s, "\n@")[1..]));
    var bibtexs: seq<string> := [];
    var i := 0;
    while i < |rest|
      invariant 0 <= i <= |rest|
      invariant reg.keys.Keys == known
      invariant RenderAll(render, rest[..i]) == Done(bibtexs)
    {
      var o := RenderEntry(b, rest[i], reg);
      RenderNext(render, rest, i, bibtexs);
      if o.Raised? {
        RaisedExtends(render, rest, i + 1);
        return Raised(o.exception);
      }
      bibtexs := bibtexs + [o.value];
      i := i + 1;
    }
    assert rest[..i] == rest;
    out := Done(Split(s, "\n@")[0] + "\n" + Join(NonEmpty(bibtexs), "\n\n"));
  }

  // ----- what normalize promises -----

  /** The list comprehension goes through exactly when every chunk renders,
      and then holds each chunk's text in the order of the chunks. */
  lemma {:induction false} RenderAllDone(render: string -> Outcome<string>, ts: seq<string>)
    ensures RenderAll(render, ts).Done? <==> forall i :: 0 <= i < |ts| ==> render(ts[i]).Done?
    ensures RenderAll(render, ts).Done? ==>
      && |RenderAll(render, ts).value| == |ts|
      && forall i :: 0 <= i < |ts| ==> RenderAll(render, ts).value[i] == render(ts[i]).value
    decreases |ts|
  {
    if ts != [] {
      var init := ts[..|ts| - 1];
      RenderAllDone(render, init);
      assert forall i :: 0 <= i < |init| ==> init[i] == ts[i];
    }
  }

  /** An exception that escapes is the one the first failing chunk raises. */
  lemma {:induction false} RenderAllRaised(render: string -> Outcome<string>, ts: seq<string>)
    requires RenderAll(render, ts).Raised?
    ensures exists i ::
      (0 <= i < |ts| && render(ts[i]) == Raised(RenderAll(render, ts).exception)
       && (forall j :: 0 <= j < i ==> render(ts[j]).Done?))
    decreases |ts|
  {
    var init := ts[..|ts| - 1];
    assert forall i :: 0 <= i < |init| ==> init[i] == ts[i];
    if RenderAll(render, init).Raised? {
      RenderAllRaised(render, init);
      var i :| 0 <= i < |init| && render(init[i]) == Raised(RenderAll(render, init).exception)
        && (forall j :: 0 <= j < i ==> render(init[j]).Done?);
      assert render(ts[i]) == Raised(RenderAll(render, ts).exception);
    } else {
      RenderAllDone(render, init);
      assert render(ts[|ts| - 1]) == Raised(RenderAll(render, ts).exception);
    }
  }

  /** The filter keeps exactly the non-empty texts. */
  lemma {:induction false} NonEmptyMembers(bs: seq<string>)
    ensures forall x :: x in NonEmpty(bs) <==> x in bs && x != ""
    ensures |NonEmpty(bs)| <= |bs|
    decreases |bs|
  {
    if bs != [] {
      NonEmptyMembers(bs[1..]);
      assert bs == [bs[0]] + bs[1..];
    }
  }

  /** Only empty texts: nothing is kept. */
  lemma {:induction false} NonEmptyOfBlanks(bs: seq<string>)
    requires forall i :: 0 <= i < |bs| ==> bs[i] == ""
    ensures NonEmpty(bs) == []
    decreases |bs|
  {
    if bs != [] {
      NonEmptyOfBlanks(bs[1..]);
    }
  }

  /** The chunks handed to the constructor: the pieces after the preamble,
      in descending order, each one exactly once, none holding a separator. */
  lemma RecordTextsOrder(s: string)
    ensures multiset(RecordTexts(s)) == multiset(Split(s, "\n@")[1..])
    ensures forall i, j :: 0 <= i < j < |RecordTexts(s)| ==> LexLe(RecordTexts(s)[j], RecordTexts(s)[i])
    ensures forall i :: 0 <= i < |RecordTexts(s)| ==> !Contains(RecordTexts(s)[i], "\n@")
  {
    var pieces := Split(s, "\n@")[1..];
    SortedIsSortedPermutation(pieces);
    ReversePermutes(Sorted(pieces));
    DescendingReverse(Sorted(pieces));
    SplitPiecesAvoidSep(s, "\n@");
    assert forall x :: x in pieces ==> !Contains(x, "\n@");
    forall i | 0 <= i < |RecordTexts(s)|
      ensures !Contains(RecordTexts(s)[i], "\n@")
    {
      var x := RecordTexts(s)[i];
      assert x in multiset(RecordTexts(s));
      assert x in multiset(pieces);
    }
  }

  /** Reversing an ascending list gives a descending one. */
  lemma DescendingReverse(xs: seq<string>)
    requires SortedLex(xs)
    ensures forall i, j :: 0 <= i < j < |Reverse(xs)| ==> LexLe(Reverse(xs)[j], Reverse(xs)[i])
  {
    forall i, j | 0 <= i < j < |Reverse(xs)|
      ensures LexLe(Reverse(xs)[j], Reverse(xs)[i])
    {
      assert Reverse(xs)[j] == xs[|xs| - 1 - j] && Reverse(xs)[i] == xs[|xs| - 1 - i];
    }
  }

  /** The output begins with the preamble, which is the text before the
      first record, and a newline. */
  lemma NormalizeKeepsPreamble(render: string -> Outcome<string>, s: string)
    ensures Preamble(s) <= s
    ensures NormalizeText(render, s).Done? ==> Preamble(s) + "\n" <= NormalizeText(render, s).value
  {
    SplitHeadPrefix(s, "\n@");
  }

  /** A text without records comes back with a newline appended. */
  lemma NormalizeNoRecords(render: string -> Outcome<string>, s: string)
    requires !Contains(s, "\n@")
    ensures NormalizeText(render, s) == Done(s + "\n")
  {
    ContainsIffSplits(s, "\n@");
    SplitJoin(s, "\n@");
    assert Split(s, "\n@")[1..] == [];
    assert RecordTexts(s) == [];
    assert Preamble(s) == s;
    assert RenderAll(render, []) == Done([]);
    assert Join(NonEmpty([]), "\n\n") == "";
    assert Preamble(s) + "\n" + "" == s + "\n";
  }

  /** When every record that renders renders as nothing, only the preamble is left. */
  lemma {:induction false} NormalizeAllFiltered(render: string -> Outcome<string>, s: string)
    requires forall t :: render(t).Done? ==> render(t).value == ""
    ensures NormalizeText(render, s).Done? ==> NormalizeText(render, s) == Done(Preamble(s) + "\n")
  {
    var ts := RecordTexts(s);
    RenderAllDone(render, ts);
    if RenderAll(render, ts).Done? {
      var bs := RenderAll(render, ts).value;
      assert forall i :: 0 <= i < |bs| ==> bs[i] == "";
      NonEmptyOfBlanks(bs);
      assert Join(NonEmpty(bs), "\n\n") == "";
      assert Preamble(s) + "\n" + "" == Preamble(s) + "\n";
    }
  }

  /** `restrict=True` with no keys to include: every record is filtered out,
      whatever the passes of `conform` make of it. */
  lemma RestrictToNothing(b: Batch, known: set<string>, s: string)
    requires b.restrict && b.inkeys == {}
    ensures NormalizeText(Renderer(b, known), s).Done? ==>
      NormalizeText(Renderer(b, known), s) == Done(Preamble(s) + "\n")
  {
    forall t | Renderer(b, known)(t).Done?
      ensures Renderer(b, known)(t).value == ""
    {
    }
    NormalizeAllFiltered(Renderer(b, known), s);
  }

  /** A record kept in the output is its `bibtex()` text: the sorted field
      lines of the conformed fields. When the conformed values are plain,
      brace-closed values (as `Rereadable` says), reading that text again,
      less its `@`, gives back the entry's key, the conformed type and every
      conformed field but the excluded ones. */
  lemma RenderedRecord(b: Batch, known: set<string>, t: string)
    requires RenderOne(b, known, t).Done? && RenderOne(b, known, t).value != ""
    ensures ParseEntry(t).Fields?
    ensures !Filtered(b.restrict, b.inkeys, Some(ParseEntry(t).key))
    ensures Passes.Conform(b.voc, Flagged(ParseEntry(t).fields, ParseEntry(t).key, known)).Done?
    ensures RenderOne(b, known, t).value ==
      BibtexText(Passes.Conform(b.voc, Flagged(ParseEntry(t).fields, ParseEntry(t).key, known)).value, ParseEntry(t).key)
    ensures var k := ParseEntry(t).key;
      var r := Passes.Conform(b.voc, Flagged(ParseEntry(t).fields, k, known)).value;
      Valid(r) && Rereadable(r) && |OutputNames(r)| > 0
      && |r.typ| > 0 && '{' !in r.typ && (forall i :: 0 <= i < |r.typ| ==> !IsUpper(r.typ[i])) ==>
        var p := ParseEntry(RenderOne(b, known, t).value[1..]);
        && p.Fields? && p.typ == r.typ && p.key == k
        && forall f :: Get(p.fields, f) == if f in ExcludeFields then None else Get(r, f)
  {
    var k := ParseEntry(t).key;
    var r := Passes.Conform(b.voc, Flagged(ParseEntry(t).fields, k, known)).value;
    if Valid(r) && Rereadable(r) && |OutputNames(r)| > 0
      && |r.typ| > 0 && '{' !in r.typ && (forall i :: 0 <= i < |r.typ| ==> !IsUpper(r.typ[i]))
    {
      EntryKey(t);
      BibtexRoundTrip(r, k);
    }
  }

  /** The key read from an entry is non-empty and holds no comma. */
  lemma EntryKey(s: string)
    requires ParseEntry(s).Fields?
    ensures |ParseEntry(s).key| > 0 && ',' !in ParseEntry(s).key
  {
    var m := TypKeyFields(s).value;
    var key := s[m.brace + 1..m.comma];
    assert ParseEntry(s).key == key;
    forall i | 0 <= i < |key| ensures key[i] != ',' {
      assert key[i] == s[m.brace + 1 + i];
    }
  }
}
