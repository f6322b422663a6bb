/** The `fromfile` path of the record constructor: an entry of a `.bib` file,
    less its leading `@`, taken apart into type, key and `name = value`
    fields (bibtools.py, lines 95-117). */
module Entry {
  import opened PyStr
  import opened BibPatterns
  import opened FieldState

  // ----- re.split('(?<=\})\s*,\s*\n', body) -----

  /** The end of the separator's trailing `\s*\n`: scanning the white space
      from `i`, the position just past the last newline seen so far. */
  function NewlineAfter(s: string, i: nat, last: Option<nat>): (r: Option<nat>)
    requires i <= |s|
    ensures r == last || (r.Some? && i < r.value <= |s| && s[r.value - 1] == '\n')
    decreases |s| - i
  {
    if i < |s| && IsSpace(s[i]) then NewlineAfter(s, i + 1, if s[i] == '\n' then Some(i + 1) else last)
    else last
  }

  /** The rest of the separator after the `}`: `\s*,` and then `\s*\n`. */
  function CommaAfter(s: string, i: nat): (r: Option<nat>)
    requires i <= |s|
    ensures r.Some? ==> i < r.value <= |s| && s[r.value - 1] == '\n'
    decreases |s| - i
  {
    if i == |s| then None
    else if IsSpace(s[i]) then CommaAfter(s, i + 1)
    else if s[i] == ',' then NewlineAfter(s, i + 1, None)
    else None
  }

  /** The end of the separator tried at `p`, which must follow a `}`. */
  function SeparatorAt(s: string, p: nat): (r: Option<nat>)
    requires p <= |s|
    ensures r.Some? ==> p < r.value <= |s| && s[r.value - 1] == '\n'
  {
    if p == 0 || s[p - 1] != '}' then None else CommaAfter(s, p)
  }

  /** The pieces between separators, scanning from `p`, the current piece
      starting at `c`. */
  function ChunksFrom(s: string, c: nat, p: nat): seq<string>
    requires c <= p <= |s|
    decreases |s| - p
  {
    if p == |s| then [s[c..]]
    else match SeparatorAt(s, p)
      case Some(e) => [s[c..p]] + ChunksFrom(s, e, e)
      case None => ChunksFrom(s, c, p + 1)
  }

  /** The field texts of an entry body, one per `name = value`. */
  function Chunks(s: string): seq<string> {
    ChunksFrom(s, 0, 0)
  }

  // ----- re.split('\s*=\s*', t, maxsplit=1) -----

  /** The start of the run of white space that ends at `q`. */
  function SpaceRunStart(t: string, q: nat): (r: nat)
    requires q <= |t|
    ensures r <= q
    ensures forall k :: r <= k < q ==> IsSpace(t[k])
    ensures r == 0 || !IsSpace(t[r - 1])
  {
    if q > 0 && IsSpace(t[q - 1]) then SpaceRunStart(t, q - 1) else q
  }

  /** The two sides of the first `=` and the white space around it; `None`
      when there is no `=`, where the source's `tp[1]` raises `IndexError`. */
  function SplitAtEquals(t: string): Option<(string, string)> {
    match FindChar(t, '=', 0)
    case None => None
    case Some(q) => Some((t[..SpaceRunStart(t, q)], t[RunEnd(t, q + 1, IsSpace)..]))
  }

  /** `.replace('\n', ' ').replace('\t', ' ')` */
  function Flatten(s: string): string {
    Replace(Replace(s, "\n", " "), "\t", " ")
  }

  function FieldName(n: string): string {
    Flatten(Lower(Strip(n)))
  }

  function FieldValue(v: string): string {
    Flatten(Strip(v))
  }

  /** The `(name, value)` pairs of the chunks, or `None` if one has no `=`. */
  function FieldPairs(chunks: seq<string>): Option<seq<(string, string)>> {
    if chunks == [] then Some([])
    else match SplitAtEquals(chunks[0])
      case None => None
      case Some(nv) =>
        match FieldPairs(chunks[1..])
        case None => None
        case Some(rest) => Some([(FieldName(nv.0), FieldValue(nv.1))] + rest)
  }

  /** `dict(pairs)`: a repeated name keeps its first place and its last value. */
  function PutAll(r: RecordState, ps: seq<(string, string)>): RecordState
    decreases |ps|
  {
    if ps == [] then r else PutAll(Put(r, ps[0].0, Some(ps[0].1)), ps[1..])
  }

  /** What the `fromfile` path gets out of an entry. */
  datatype Parsed =
    | NoEntry                                        // TYPKEYFIELDS fails: the constructor returns at once
    | Unpaired(typ: string, key: string)            // a field without `=`: `fields` is never set
    | Fields(typ: string, key: string, fields: RecordState)

  function ParseEntry(s: string): Parsed {
    match TypKeyFields(s)
    case None => NoEntry
    case Some(m) =>
      var g := EntryGroups(s, m);
      var typ := Lower(g.0);
      match FieldPairs(Chunks(Strip(g.2)))
      case None => Unpaired(typ, g.1)
      case Some(ps) => Fields(typ, g.1, PutAll(RecordState(typ, map[], [], []), ps))
  }

  // ----- the separator -----

  /** Every piece but the last ends with a `}`. */
  predicate BraceEnded(cs: seq<string>) {
    forall i :: 0 <= i < |cs| - 1 ==> |cs[i]| > 0 && cs[i][|cs[i]| - 1] == '}'
  }

  lemma BraceEndedCons(x: string, cs: seq<string>)
    requires |x| > 0 && x[|x| - 1] == '}' && BraceEnded(cs)
    ensures BraceEnded([x] + cs)
  {
    forall i | 0 <= i < |[x] + cs| - 1 ensures |([x] + cs)[i]| > 0 && ([x] + cs)[i][|([x] + cs)[i]| - 1] == '}' {
      if i > 0 { assert ([x] + cs)[i] == cs[i - 1]; }
    }
  }

  /** A separator follows a `}` and ends just past a newline. */
  lemma SeparatorEnds(s: string, p: nat)
    requires p <= |s| && SeparatorAt(s, p).Some?
    ensures p > 0 && s[p - 1] == '}' && s[SeparatorAt(s, p).value - 1] == '\n'
  {
  }

  /** Where no separator starts, the scan moves on. */
  lemma ChunksPast(s: string, c: nat, p: nat)
    requires c <= p < |s| && SeparatorAt(s, p).None?
    ensures ChunksFrom(s, c, p) == ChunksFrom(s, c, p + 1)
  {
  }

  lemma ChunksAtSeparator(s: string, c: nat, p: nat, e: nat)
    requires c <= p < |s| && SeparatorAt(s, p) == Some(e)
    requires c == 0 || s[c - 1] == '\n'
    requires p > 0 && s[p - 1] == '}'
    requires BraceEnded(ChunksFrom(s, e, e))
    ensures BraceEnded(ChunksFrom(s, c, p))
  {
    assert ChunksFrom(s, c, p) == [s[c..p]] + ChunksFrom(s, e, e);
    assert s[c..p][p - c - 1] == s[p - 1];
    BraceEndedCons(s[c..p], ChunksFrom(s, e, e));
  }

  /** The separator looks back at a `}`, so every piece but the last ends with one. */
  lemma {:induction false} ChunksEndInBrace(s: string, c: nat, p: nat)
    requires c <= p <= |s|
    requires c == 0 || s[c - 1] == '\n'
    ensures BraceEnded(ChunksFrom(s, c, p))
    decreases |s| - p
  {
    if p < |s| {
      var sep := SeparatorAt(s, p);
      if sep.Some? {
        var e := sep.value;
        SeparatorEnds(s, p);
        ChunksEndInBrace(s, e, e);
        ChunksAtSeparator(s, c, p, e);
      } else {
        ChunksPast(s, c, p);
        ChunksEndInBrace(s, c, p + 1);
      }
    }
  }

  // ----- reading back what bibtex() writes -----

  /** What `bibtex()` writes between two fields. */
  const FieldJoiner: string := ",\n\t"

  /** A field line that a separator can follow: it ends with `}` and stays on one line. */
  predicate OneLineBraced(x: string) {
    |x| > 0 && x[|x| - 1] == '}' && '\n' !in x
  }

  /** The pieces after the first each keep the tab the joiner leaves behind. */
  function Tabbed(ps: seq<string>): (r: seq<string>)
    ensures |r| == |ps|
  {
    if ps == [] then [] else ["\t" + ps[0]] + Tabbed(ps[1..])
  }

  /** White space without a newline, up to a character that is not white
      space, adds no newline to the separator. */
  lemma {:induction false} NewlineAfterKeeps(s: string, i: nat, e: nat, last: Option<nat>)
    requires i < e <= |s| && !IsSpace(s[e - 1])
    requires forall k :: i <= k < e ==> s[k] != '\n'
    ensures NewlineAfter(s, i, last) == last
    decreases e - i
  {
    if IsSpace(s[i]) {
      NewlineAfterKeeps(s, i + 1, e, last);
    }
  }

  lemma {:induction false} CommaAfterNone(s: string, i: nat, e: nat)
    requires i < e <= |s| && s[e - 1] == '}'
    requires forall k :: i <= k < e ==> s[k] != '\n'
    ensures CommaAfter(s, i).None?
    decreases e - i
  {
    if IsSpace(s[i]) {
      CommaAfterNone(s, i + 1, e);
    } else if s[i] == ',' {
      NewlineAfterKeeps(s, i + 1, e, None);
    }
  }

  /** No separator starts before a closing brace on the same line. */
  lemma NoSeparatorBefore(s: string, p: nat, e: nat)
    requires p < e <= |s| && s[e - 1] == '}'
    requires forall k :: p <= k < e ==> s[k] != '\n'
    ensures SeparatorAt(s, p).None?
  {
    if p > 0 && s[p - 1] == '}' {
      CommaAfterNone(s, p, e);
    }
  }

  /** The scan passes over a line that ends with a closing brace. */
  lemma {:induction false} ScanLine(s: string, c: nat, p: nat, e: nat)
    requires c <= p <= e <= |s|
    requires p < e ==> s[e - 1] == '}'
    requires forall k :: p <= k < e ==> s[k] != '\n'
    ensures ChunksFrom(s, c, p) == ChunksFrom(s, c, e)
    decreases e - p
  {
    if p < e {
      NoSeparatorBefore(s, p, e);
      ChunksPast(s, c, p);
      ScanLine(s, c, p + 1, e);
    }
  }

  /** The joiner after a braced line is a separator that ends at its newline. */
  lemma SeparatorAtJoiner(s: string, e: nat, e2: nat)
    requires 0 < e && e + 3 < e2 <= |s| && s[e - 1] == '}' && s[e2 - 1] == '}'
    requires s[e] == ',' && s[e + 1] == '\n' && s[e + 2] == '\t'
    requires forall k :: e + 3 <= k < e2 ==> s[k] != '\n'
    ensures SeparatorAt(s, e) == Some(e + 2)
  {
    NewlineAfterKeeps(s, e + 3, e2, Some(e + 2));
    assert NewlineAfter(s, e + 1, None) == NewlineAfter(s, e + 3, Some(e + 2));
  }

  /** The piece that a separator ends. */
  lemma ChunksSeparated(s: string, c: nat, p: nat, e: nat)
    requires c <= p < |s| && SeparatorAt(s, p) == Some(e)
    ensures ChunksFrom(s, c, p) == [s[c..p]] + ChunksFrom(s, e, e)
  {
  }

  /** A braced line sitting at `a`. */
  lemma LineAt(s: string, a: nat, x: string)
    requires a + |x| <= |s| && s[a..a + |x|] == x && OneLineBraced(x)
    ensures s[a + |x| - 1] == '}'
    ensures forall k :: a <= k < a + |x| ==> s[k] != '\n'
  {
    forall k | a <= k < a + |x| ensures s[k] != '\n' {
      assert s[k] == x[k - a];
    }
    assert s[a + |x| - 1] == x[|x| - 1];
  }

  /** The first of several joined parts, then the joiner, then the others. */
  lemma JoinerAfter(s: string, a: nat, parts: seq<string>)
    requires a <= |s| && |parts| > 1 && s[a..] == Join(parts, FieldJoiner)
    ensures var e := a + |parts[0]|;
      && e + 3 <= |s| && s[a..e] == parts[0]
      && s[e] == ',' && s[e + 1] == '\n' && s[e + 2] == '\t'
      && s[e + 3..] == Join(parts[1..], FieldJoiner)
  {
    var e := a + |parts[0]|;
    assert s[a..] == parts[0] + FieldJoiner + Join(parts[1..], FieldJoiner);
    assert s[a..][..|parts[0]|] == parts[0];
    assert s[a..][|parts[0]|..|parts[0]| + 3] == FieldJoiner;
  }

  /** The last part runs to the end. */
  lemma LastPart(s: string, a: nat, parts: seq<string>)
    requires a <= |s| && |parts| == 1 && s[a..] == Join(parts, FieldJoiner)
    ensures a + |parts[0]| == |s| && s[a..|s|] == parts[0]
  {
  }

  /** The last part: a single piece to the end. */
  lemma ChunksOfLast(s: string, c: nat, a: nat, x: string)
    requires c <= a && a + |x| == |s| && s[a..] == x && OneLineBraced(x)
    ensures ChunksFrom(s, c, a) == [s[c..a] + x]
  {
    LineAt(s, a, x);
    ScanLine(s, c, a, |s|);
    assert s[c..] == s[c..a] + x;
  }

  /** A line ending at `e`, the joiner, and a next line ending at `e2`. */
  lemma ChunksOfJoint(s: string, c: nat, a: nat, e: nat, e2: nat)
    requires c <= a < e && e + 3 < e2 <= |s| && s[e - 1] == '}' && s[e2 - 1] == '}'
    requires forall k :: a <= k < e ==> s[k] != '\n'
    requires forall k :: e + 3 <= k < e2 ==> s[k] != '\n'
    requires s[e] == ',' && s[e + 1] == '\n' && s[e + 2] == '\t'
    ensures ChunksFrom(s, c, a) == [s[c..e]] + ChunksFrom(s, e + 2, e + 3)
  {
    ScanLine(s, c, a, e);
    ChunksAtJoiner(s, c, e, e2);
  }

  /** The scan at a joiner ends the piece and steps over the tab's newline. */
  lemma ChunksAtJoiner(s: string, c: nat, e: nat, e2: nat)
    requires c <= e && 0 < e && e + 3 < e2 <= |s| && s[e - 1] == '}' && s[e2 - 1] == '}'
    requires forall k :: e + 3 <= k < e2 ==> s[k] != '\n'
    requires s[e] == ',' && s[e + 1] == '\n' && s[e + 2] == '\t'
    ensures ChunksFrom(s, c, e) == [s[c..e]] + ChunksFrom(s, e + 2, e + 3)
  {
    SeparatorAtJoiner(s, e, e2);
    ChunksSeparated(s, c, e, e + 2);
    NotAfterBrace(s, e + 2);
    ChunksPast(s, e + 2, e + 2);
  }

  lemma NotAfterBrace(s: string, p: nat)
    requires 0 < p <= |s| && s[p - 1] != '}'
    ensures SeparatorAt(s, p).None?
  {
  }

  /** `s` from `a` on holds the braced lines `parts`, each followed by the
      joiner but the last, which ends `s`. */
  predicate LinesAt(s: string, a: nat, parts: seq<string>)
    decreases |parts|
  {
    && |parts| > 0
    && var e := a + |parts[0]|;
    && e <= |s| && s[a..e] == parts[0] && OneLineBraced(parts[0])
    && if |parts| == 1 then e == |s|
       else e + 3 <= |s| && s[e] == ',' && s[e + 1] == '\n' && s[e + 2] == '\t' && LinesAt(s, e + 3, parts[1..])
  }

  /** Lines joined by the joiner sit where `LinesAt` says. */
  lemma {:induction false} JoinedLines(s: string, a: nat, parts: seq<string>)
    requires a <= |s| && |parts| > 0 && s[a..] == Join(parts, FieldJoiner)
    requires forall i :: 0 <= i < |parts| ==> OneLineBraced(parts[i])
    ensures LinesAt(s, a, parts)
    decreases |parts|
  {
    if |parts| == 1 {
      LastPart(s, a, parts);
    } else {
      JoinerAfter(s, a, parts);
      JoinedLines(s, a + |parts[0]| + 3, parts[1..]);
    }
  }

  /** The first two lines of several, and the joiner between them. */
  lemma LinesHead(s: string, a: nat, parts: seq<string>)
    requires LinesAt(s, a, parts) && |parts| > 1
    ensures var e := a + |parts[0]|;
      && LinesAt(s, e + 3, parts[1..])
      && a < e && e + 3 + |parts[1]| <= |s|
      && s[e - 1] == '}' && s[e + 3 + |parts[1]| - 1] == '}'
      && (forall k :: a <= k < e ==> s[k] != '\n')
      && (forall k :: e + 3 <= k < e + 3 + |parts[1]| ==> s[k] != '\n')
      && s[e] == ',' && s[e + 1] == '\n' && s[e + 2] == '\t'
  {
    var e := a + |parts[0]|;
    LineAt(s, a, parts[0]);
    assert LinesAt(s, e + 3, parts[1..]);
    LineAt(s, e + 3, parts[1]);
  }

  /** One step of the scan over joined lines. */
  lemma ChunksOfLinesStep(s: string, c: nat, a: nat, parts: seq<string>)
    requires c <= a && LinesAt(s, a, parts) && |parts| > 1
    ensures var e := a + |parts[0]|;
      && e + 3 <= |s| && LinesAt(s, e + 3, parts[1..])
      && ChunksFrom(s, c, a) == [s[c..a] + parts[0]] + ChunksFrom(s, e + 2, e + 3)
      && s[e + 2..e + 3] + parts[1] == "\t" + parts[1]
  {
    var e := a + |parts[0]|;
    LinesHead(s, a, parts);
    ChunksOfJoint(s, c, a, e, e + 3 + |parts[1]|);
    assert s[c..e] == s[c..a] + parts[0];
    assert s[e + 2..e + 3] == "\t";
  }

  /** Fields joined the way `bibtex()` joins them come apart again at the
      joiners, each but the first keeping a leading tab. */
  lemma {:induction false} ChunksOfLines(s: string, c: nat, a: nat, parts: seq<string>)
    requires c <= a && LinesAt(s, a, parts)
    ensures ChunksFrom(s, c, a) == [s[c..a] + parts[0]] + Tabbed(parts[1..])
    decreases |parts|
  {
    if |parts| == 1 {
      ChunksOfLast(s, c, a, parts[0]);
    } else {
      var e := a + |parts[0]|;
      var tail := parts[1..];
      ChunksOfLinesStep(s, c, a, parts);
      ChunksOfLines(s, e + 2, e + 3, tail);
    }
  }

  lemma ChunksOfLinesAll(s: string, parts: seq<string>)
    requires LinesAt(s, 0, parts)
    ensures Chunks(s) == [parts[0]] + Tabbed(parts[1..])
  {
    ChunksOfLines(s, 0, 0, parts);
    assert s[0..0] + parts[0] == parts[0];
  }

  lemma ChunksOfJoin(parts: seq<string>)
    requires |parts| > 0
    requires forall i :: 0 <= i < |parts| ==> OneLineBraced(parts[i])
    ensures Chunks(Join(parts, FieldJoiner)) == [parts[0]] + Tabbed(parts[1..])
  {
    var s := Join(parts, FieldJoiner);
    JoinedLines(s, 0, parts);
    ChunksOfLinesAll(s, parts);
  }

  // ----- reading back one `name = value` line -----

  /** A field name as `bibtex()` writes it: no white space, no `=`, lower case. */
  predicate PlainName(f: string) {
    |f| > 0 && forall k :: 0 <= k < |f| ==> !IsSpace(f[k]) && f[k] != '=' && !IsUpper(f[k])
  }

  /** A value that reading keeps as it is: no surrounding white space, on one line, no tab. */
  predicate PlainValue(v: string) {
    |v| > 0 && !IsSpace(v[0]) && !IsSpace(v[|v| - 1]) && '\n' !in v && '\t' !in v
  }

  /** A single `=` with one space on each side, between non-space characters. */
  lemma SplitAtEqualsAt(t: string, q: nat)
    requires 2 <= q && q + 2 < |t| && t[q] == '=' && t[q - 1] == ' ' && t[q + 1] == ' '
    requires !IsSpace(t[q - 2]) && !IsSpace(t[q + 2])
    requires forall k :: 0 <= k < q ==> t[k] != '='
    ensures SplitAtEquals(t) == Some((t[..q - 1], t[q + 2..]))
  {
    FindCharIs(t, '=', 0, q);
    assert SpaceRunStart(t, q) == q - 1;
    RunEndIs(t, q + 1, IsSpace, q + 2);
  }

  /** Where the parts of `lead + f + " = " + v` sit. */
  lemma LineLayout(lead: string, f: string, v: string)
    requires lead == "" || lead == "\t"
    requires PlainName(f) && PlainValue(v)
    ensures var t := lead + f + " = " + v; var q := |lead| + |f| + 1;
      && 2 <= q && q + 2 < |t| && t[q] == '=' && t[q - 1] == ' ' && t[q + 1] == ' '
      && !IsSpace(t[q - 2]) && !IsSpace(t[q + 2])
      && (forall k :: 0 <= k < q ==> t[k] != '=')
      && t[..q - 1] == lead + f && t[q + 2..] == v
  {
    var t := lead + f + " = " + v;
    var q := |lead| + |f| + 1;
    forall k | 0 <= k < q ensures t[k] != '=' {
      if |lead| <= k < |lead| + |f| { assert t[k] == f[k - |lead|]; }
    }
    assert t[q - 2] == f[|f| - 1];
    assert t[q + 2] == v[0];
  }

  /** The name and value sides of `lead + f + " = " + v`. */
  lemma SplitLine(lead: string, f: string, v: string)
    requires lead == "" || lead == "\t"
    requires PlainName(f) && PlainValue(v)
    ensures SplitAtEquals(lead + f + " = " + v) == Some((lead + f, v))
  {
    LineLayout(lead, f, v);
    SplitAtEqualsAt(lead + f + " = " + v, |lead| + |f| + 1);
  }

  /** A plain name reads back as itself. */
  lemma NameReadsBack(lead: string, f: string)
    requires lead == "" || lead == "\t"
    requires PlainName(f)
    ensures FieldName(lead + f) == f
  {
    if lead == "" {
      StripClean(f);
    } else {
      StripTab(f);
    }
    LowerSame(f);
    assert '\n' !in f && '\t' !in f by {
      forall k | 0 <= k < |f| ensures f[k] != '\n' && f[k] != '\t' {
        assert !IsSpace(f[k]);
      }
    }
    ReplaceAbsentChar(f, '\n', " ");
    ReplaceAbsentChar(f, '\t', " ");
    assert Strip(lead + f) == f;
    assert Flatten(f) == f;
  }

  /** A plain value reads back as itself. */
  lemma ValueReadsBack(v: string)
    requires PlainValue(v)
    ensures FieldValue(v) == v
  {
    StripClean(v);
    ReplaceAbsentChar(v, '\n', " ");
    ReplaceAbsentChar(v, '\t', " ");
  }

  // ----- dict(pairs) -----

  function Names(ps: seq<(string, string)>): (ns: seq<string>)
    ensures |ns| == |ps|
    ensures forall i :: 0 <= i < |ps| ==> ns[i] == ps[i].0
  {
    if ps == [] then [] else [ps[0].0] + Names(ps[1..])
  }

  /** Pairs whose names are new and distinct are appended in order, each
      with its own value, and nothing else changes. */
  lemma {:induction false} PutAllFresh(r: RecordState, ps: seq<(string, string)>)
    requires Distinct(Names(ps))
    requires forall i :: 0 <= i < |ps| ==> ps[i].0 !in r.vals
    ensures var r' := PutAll(r, ps);
      && r'.order == r.order + Names(ps)
      && (forall i :: 0 <= i < |ps| ==> Get(r', ps[i].0) == Some(ps[i].1))
      && (forall g :: g !in Names(ps) ==> Get(r', g) == Get(r, g))
      && (forall g :: g in r'.vals <==> g in r.vals || g in Names(ps))
      && r'.typ == r.typ && r'.errors == r.errors
    decreases |ps|
  {
    if ps != [] {
      var r1 := Put(r, ps[0].0, Some(ps[0].1));
      var tail := ps[1..];
      assert Names(ps) == [ps[0].0] + Names(tail);
      assert Distinct(Names(tail)) by {
        forall i, j | 0 <= i < j < |tail| ensures Names(tail)[i] != Names(tail)[j] {
          assert Names(ps)[i + 1] == Names(tail)[i] && Names(ps)[j + 1] == Names(tail)[j];
        }
      }
      forall i | 0 <= i < |tail| ensures tail[i].0 !in r1.vals {
        assert Names(ps)[0] != Names(ps)[i + 1];
      }
      PutAllFresh(r1, tail);
      forall i | 0 <= i < |ps| ensures Get(PutAll(r, ps), ps[i].0) == Some(ps[i].1) {
        if i > 0 { assert tail[i - 1] == ps[i]; }
        else {
          assert ps[0].0 !in Names(tail) by {
            forall j | 0 <= j < |tail| ensures Names(tail)[j] != ps[0].0 {
              assert Names(ps)[j + 1] == Names(tail)[j];
            }
          }
        }
      }
    }
  }
}
