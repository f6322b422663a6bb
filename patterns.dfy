/** The small regular expressions of bibpatterns.py, written out by hand with
    the semantics Python's `re` gives them: `search` tries start positions
    from left to right, `match` only position 0; at one position the
    alternatives are tried in order, a greedy quantifier tries its longest
    run first and a lazy one its shortest, and the first combination that
    completes the pattern is the match. Each recogniser returns the positions
    of the match and of its groups in the searched string. */
module BibPatterns {
  import opened PyStr

  // ----- shared scanning helpers -----

  /** `re.search` over start positions `i..n`: the first one at which `at` matches. */
  function FirstMatch<T>(i: nat, n: nat, at: nat -> Option<T>): (r: Option<(nat, T)>)
    ensures r.Some? ==> i <= r.value.0 <= n && at(r.value.0) == Some(r.value.1)
    ensures r.Some? ==> forall j :: i <= j < r.value.0 ==> at(j).None?
    ensures r.None? ==> forall j :: i <= j <= n ==> at(j).None?
    decreases n + 1 - i
  {
    if i > n then None
    else match at(i)
      case Some(t) => Some((i, t))
      case None => FirstMatch(i + 1, n, at)
  }

  /** The index just past the run of characters satisfying `p` that starts at `i`
      (a greedy `[...]*`). */
  function RunEnd(s: string, i: nat, p: char -> bool): (r: nat)
    requires i <= |s|
    ensures i <= r <= |s|
    ensures forall k :: i <= k < r ==> p(s[k])
    ensures r == |s| || !p(s[r])
    decreases |s| - i
  {
    if i < |s| && p(s[i]) then RunEnd(s, i + 1, p) else i
  }

  /** The index of the first `c` at or after `i`. */
  function FindChar(s: string, c: char, i: nat): (r: Option<nat>)
    ensures r.Some? ==> i <= r.value < |s| && s[r.value] == c
    ensures r.Some? ==> forall k :: i <= k < r.value ==> s[k] != c
    ensures r.None? ==> forall k :: i <= k < |s| ==> s[k] != c
    decreases |s| - i
  {
    if i >= |s| then None
    else if s[i] == c then Some(i)
    else FindChar(s, c, i + 1)
  }

  /** The index of the last `c` before `j`. */
  function RFindChar(s: string, c: char, j: nat): (r: Option<nat>)
    requires j <= |s|
    ensures r.Some? ==> r.value < j && s[r.value] == c
    ensures r.Some? ==> forall k :: r.value < k < j ==> s[k] != c
    ensures r.None? ==> forall k :: 0 <= k < j ==> s[k] != c
  {
    if j == 0 then None
    else if s[j - 1] == c then Some(j - 1)
    else RFindChar(s, c, j - 1)
  }

  /** The start of the line holding position `j`: `.` never matches a newline. */
  function LineStart(s: string, j: nat): (r: nat)
    requires j <= |s|
    ensures r <= j
    ensures forall k :: r <= k < j ==> s[k] != '\n'
    ensures r == 0 || s[r - 1] == '\n'
  {
    match RFindChar(s, '\n', j)
    case Some(k) => k + 1
    case None => 0
  }

  predicate IsNumeral(c: char) { IsDigit(c) || c in "IVXivx" }

  // ----- TYPKEYFIELDS  ^([^\{]+)\{([^,]+),[\s\n\t]*((?:.|\n)*)\} -----

  /** Group 1 is `s[..brace]`, group 2 `s[brace + 1..comma]`, group 3 `s[body..close]`. */
  datatype EntryMatch = EntryMatch(brace: nat, comma: nat, body: nat, close: nat)

  function TypKeyFields(s: string): (r: Option<EntryMatch>)
    ensures r.Some? ==> var m := r.value;
      && 0 < m.brace && m.brace + 1 < m.comma && m.comma < m.body <= m.close < |s|
      && s[m.brace] == '{' && s[m.comma] == ',' && s[m.close] == '}'
      && (forall k :: 0 <= k < m.brace ==> s[k] != '{')
      && (forall k :: m.brace < k < m.comma ==> s[k] != ',')
      && (forall k :: m.comma < k < m.body ==> IsSpace(s[k]))
      && !IsSpace(s[m.body])
      && (forall k :: m.close < k < |s| ==> s[k] != '}')
  {
    match FindChar(s, '{', 0)
    case None => None
    case Some(b) =>
      if b == 0 then None
      else match FindChar(s, ',', b + 1)
        case None => None
        case Some(c) =>
          if c == b + 1 then None
          else match RFindChar(s, '}', |s|)
            case None => None
            case Some(e) =>
              if e <= c then None
              else
                var w := RunEnd(s, c + 1, IsSpace);
                assert !IsSpace(s[e]);
                Some(EntryMatch(b, c, w, e))
  }

  // ----- VOLUMEPATTERN  (, )?([Vv]olume|[Vv]ol.?|Band|[Tt]ome) *([0-9IVXivx]+) -----

  /** Group 0 is `s[start..end]`, group 3 (the volume) `s[numeral..end]`. */
  datatype VolumeMatch = VolumeMatch(start: nat, numeral: nat, end: nat)

  /** Where each alternative of the word group can end when it starts at `w`,
      in the order the expression tries them (`.?` tries one character first). */
  function VolumeWordEnds(s: string, w: nat): seq<nat> {
    var rest := if w <= |s| then s[w..] else "";
    var vol := "Vol" <= rest || "vol" <= rest;
    (if "Volume" <= rest || "volume" <= rest then [w + 6] else [])
    + (if vol && |rest| > 3 && rest[3] != '\n' then [w + 4] else [])
    + (if vol then [w + 3] else [])
    + (if "Band" <= rest then [w + 4] else [])
    + (if "Tome" <= rest || "tome" <= rest then [w + 4] else [])
  }

  /** ` *([0-9IVXivx]+)` from `e`: the numeral's start and end. */
  function NumeralAfter(s: string, e: nat): Option<(nat, nat)> {
    if e > |s| then None
    else
      var k := RunEnd(s, e, IsBlank);
      var t := RunEnd(s, k, IsNumeral);
      if t > k then Some((k, t)) else None
  }

  function FirstNumeral(s: string, ends: seq<nat>): Option<(nat, nat)> {
    if ends == [] then None
    else match NumeralAfter(s, ends[0])
      case Some(r) => Some(r)
      case None => FirstNumeral(s, ends[1..])
  }

  function VolumeAt(s: string, i: nat): Option<VolumeMatch> {
    if i > |s| then None
    else
      var w := if ", " <= s[i..] then i + 2 else i;
      match FirstNumeral(s, VolumeWordEnds(s, w))
      case Some(p) => Some(VolumeMatch(i, p.0, p.1))
      case None => None
  }

  function VolumeSearch(s: string): Option<VolumeMatch> {
    match FirstMatch(0, |s|, j => VolumeAt(s, j))
    case Some(p) => Some(p.1)
    case None => None
  }

  // ----- THESISPATTERN  (.*?)( doctoral)? dissertation -----

  predicate ThesisMarkerAt(s: string, p: nat) {
    p <= |s| && (" doctoral dissertation" <= s[p..] || " dissertation" <= s[p..])
  }

  /** Group 1 is `s[start..marker]`; group 2 is `" doctoral"` when `doctoral`, else absent. */
  datatype ThesisMatch = ThesisMatch(start: nat, marker: nat, doctoral: bool)

  function FirstThesisMarker(s: string, p: nat): (r: Option<nat>)
    ensures r.Some? ==> p <= r.value <= |s| && ThesisMarkerAt(s, r.value)
    ensures r.Some? ==> forall k :: p <= k < r.value ==> !ThesisMarkerAt(s, k)
    ensures r.None? ==> forall k :: p <= k ==> !ThesisMarkerAt(s, k)
    decreases |s| - p
  {
    if p >= |s| then None
    else if ThesisMarkerAt(s, p) then Some(p)
    else FirstThesisMarker(s, p + 1)
  }

  function ThesisSearch(s: string): Option<ThesisMatch> {
    match FirstThesisMarker(s, 0)
    case None => None
    case Some(p) => Some(ThesisMatch(LineStart(s, p), p, " doctoral dissertation" <= s[p..]))
  }

  /** `m.group(2)` */
  function ThesisGroup2(m: ThesisMatch): Option<string> {
    if m.doctoral then Some(" doctoral") else None
  }

  // ----- SERIESNUMBER  (?P<newtitle>.*) \((?P<series>.*?) +(?P<number>[-\.0-9/]+)\)  (re.match) -----

  predicate IsSeriesNumberChar(c: char) { IsDigit(c) || c in "-./" }
  predicate IsBlank(c: char) { c == ' ' }
  predicate NotBlank(c: char) { c != ' ' }
  predicate IsCloseBracket(c: char) { c == ']' }

  /** `newtitle` is `s[..title]`, `series` is `s[title + 2..seriesEnd]`,
      `number` is `s[number..close]`, and `s[close] == ')'`. */
  datatype SeriesMatch = SeriesMatch(title: nat, seriesEnd: nat, number: nat, close: nat)

  /** The lazy `series` group grows from `q`; the title ends at `l`. */
  function SeriesFrom(s: string, l: nat, q: nat): Option<SeriesMatch>
    requires q <= |s|
    decreases |s| - q
  {
    if q >= |s| then None
    else
      var r := RunEnd(s, q, IsBlank);
      var t := RunEnd(s, r, IsSeriesNumberChar);
      if s[q] == ' ' && t > r && t < |s| && s[t] == ')' then Some(SeriesMatch(l, q, r, t))
      else if s[q] == '\n' then None
      else SeriesFrom(s, l, q + 1)
  }

  /** The greedy `newtitle` group: the title end `l` is tried from the longest down. */
  function SeriesTitleFrom(s: string, l: nat): Option<SeriesMatch>
    decreases l
  {
    var here := SeriesHere(s, l);
    if here.Some? then here
    else if l == 0 then None
    else SeriesTitleFrom(s, l - 1)
  }

  /** The match whose new title ends at `l`, if ` \(` stands there. */
  function SeriesHere(s: string, l: nat): Option<SeriesMatch> {
    if l + 1 < |s| && s[l] == ' ' && s[l + 1] == '(' then SeriesFrom(s, l, l + 2) else None
  }

  /** The end of the first line: `.` stops at a newline. */
  function FirstLineEnd(s: string): (lim: nat)
    ensures lim <= |s| && (lim == |s| || s[lim] == '\n')
    ensures forall k :: 0 <= k < lim ==> s[k] != '\n'
  {
    match FindChar(s, '\n', 0) case Some(k) => k case None => |s|
  }

  function SeriesNumber(s: string): Option<SeriesMatch> {
    SeriesTitleFrom(s, FirstLineEnd(s))
  }

  /** ` \(` at `l` opens a series that the rest of the pattern completes. */
  predicate SeriesAt(s: string, l: nat) {
    SeriesHere(s, l).Some?
  }

  // ----- URLDATE  [\[\(]?(Y-M-D|D.M.Y|D/M/Y|M/D/Y)[\]\)]? -----

  /** Group 0 is `s[start..end]`, group 1 `s[group..groupEnd]`. */
  datatype DateMatch = DateMatch(start: nat, group: nat, groupEnd: nat, end: nat)

  /** `[xy]?[0-9]` at `k` with `firsts` the optional first class: the possible
      ends, longest first. */
  function OneOrTwoDigits(s: string, k: nat, firsts: string): seq<nat> {
    (if k + 1 < |s| && s[k] in firsts && IsDigit(s[k + 1]) then [k + 2] else [])
    + (if k < |s| && IsDigit(s[k]) then [k + 1] else [])
  }

  function Month(s: string, k: nat): seq<nat> { OneOrTwoDigits(s, k, "10") }
  function Day(s: string, k: nat): seq<nat> { OneOrTwoDigits(s, k, "0123") }

  /** `[12][0-9][0-9][0-9]` at `k`. */
  predicate YearAt(s: string, k: nat) {
    k + 4 <= |s| && s[k] in "12" && IsDigit(s[k + 1]) && IsDigit(s[k + 2]) && IsDigit(s[k + 3])
  }

  /** The separator between the day and the month: `.` for any character but
      a newline, or a literal character. */
  datatype Sep = AnyChar | Lit(c: char)

  predicate SepAt(s: string, k: nat, sep: Sep) {
    k < |s| && match sep
      case AnyChar => s[k] != '\n'
      case Lit(c) => s[k] == c
  }

  function FirstEnd(cands: seq<nat>, f: nat -> Option<nat>): Option<nat> {
    if cands == [] then None
    else match f(cands[0])
      case Some(e) => Some(e)
      case None => FirstEnd(cands[1..], f)
  }

  function YearMonthDay(s: string, g: nat): Option<nat> {
    if YearAt(s, g) && SepAt(s, g + 4, Lit('-')) then
      FirstEnd(Month(s, g + 5), (m: nat) =>
        if SepAt(s, m, Lit('-')) && |Day(s, m + 1)| > 0 then Some(Day(s, m + 1)[0]) else None)
    else None
  }

  /** The rest of `D<sep>M<sep>Y` once the month ends at `m`. */
  function YearAfterMonth(s: string, sep: Sep, m: nat): Option<nat> {
    if SepAt(s, m, sep) && YearAt(s, m + 1) then Some(m + 5) else None
  }

  /** The rest of `D<sep>M<sep>Y` once the day ends at `d`. */
  function MonthYearAfterDay(s: string, sep: Sep, d: nat): Option<nat> {
    if SepAt(s, d, sep) then FirstEnd(Month(s, d + 1), (m: nat) => YearAfterMonth(s, sep, m)) else None
  }

  function DayMonthYear(s: string, g: nat, sep: Sep): Option<nat> {
    FirstEnd(Day(s, g), (d: nat) => MonthYearAfterDay(s, sep, d))
  }

  function MonthDayYear(s: string, g: nat): Option<nat> {
    FirstEnd(Month(s, g), (m: nat) =>
      if SepAt(s, m, Lit('/')) then
        FirstEnd(Day(s, m + 1), (d: nat) => if SepAt(s, d, Lit('/')) && YearAt(s, d + 1) then Some(d + 5) else None)
      else None)
  }

  /** The end of group 1 when it starts at `g`: the four alternatives in order. */
  function DateGroupEnd(s: string, g: nat): Option<nat> {
    var ymd := YearMonthDay(s, g);
    if ymd.Some? then ymd
    else
      var dmy := DayMonthYear(s, g, AnyChar);
      if dmy.Some? then dmy
      else
        var dmySlash := DayMonthYear(s, g, Lit('/'));
        if dmySlash.Some? then dmySlash
        else MonthDayYear(s, g)
  }

  function UrlDateAt(s: string, i: nat): Option<DateMatch> {
    if i >= |s| then None
    else
      var g := if s[i] in "[(" then i + 1 else i;
      match DateGroupEnd(s, g)
      case Some(e) => Some(DateMatch(i, g, e, if e < |s| && s[e] in "])" then e + 1 else e))
      case None => None
  }

  function UrlDateSearch(s: string): Option<DateMatch> {
    match FirstMatch(0, |s|, j => UrlDateAt(s, j))
    case Some(p) => Some(p.1)
    case None => None
  }

  /** `re.search('[12][0-9][0-9][0-9]', s)` succeeds. */
  predicate HasYear(s: string) {
    exists k :: 0 <= k <= |s| && YearAt(s, k)
  }

  // ----- URL  (?P<url>(https?://)?www\.[a-zA-Z0-9-]+\.[-A-Za-z0-9\.]+(/[^ ]+)?)\.? -----

  predicate IsHostChar(c: char) { IsAsciiLetter(c) || IsDigit(c) || c == '-' }
  predicate IsDomainChar(c: char) { IsHostChar(c) || c == '.' }

  /** The end of the optional `https?://` at `i`; a scheme holds no space. */
  function SchemeEnd(s: string, i: nat): (w: nat)
    requires i <= |s|
    ensures i <= w <= |s| && forall k :: i <= k < w ==> s[k] != ' '
  {
    if "https://" <= s[i..] then
      assert s[i..i + 8] == "https://";
      i + 8
    else if "http://" <= s[i..] then
      assert s[i..i + 7] == "http://";
      i + 7
    else i
  }

  /** The end of `(/[^ ]+)?\.?` from `t`; that tail holds no space. */
  function PathEnd(s: string, t: nat): (e: nat)
    requires t <= |s|
    ensures t <= e <= |s| && forall k :: t <= k < e ==> s[k] != ' '
  {
    var p := if t + 1 < |s| && s[t] == '/' && s[t + 1] != ' ' then RunEnd(s, t + 1, NotBlank) else t;
    if p < |s| && s[p] == '.' then p + 1 else p
  }

  /** The end of `www\.[A-Za-z0-9-]+\.[A-Za-z0-9.-]+` and the path after it, from `w`. */
  function HostAt(s: string, w: nat): Option<nat>
    requires w <= |s|
  {
    if !("www." <= s[w..]) then None
    else
      var h := RunEnd(s, w + 4, IsHostChar);
      if h == w + 4 || h >= |s| || s[h] != '.' then None
      else
        var t := RunEnd(s, h + 1, IsDomainChar);
        if t == h + 1 then None else Some(PathEnd(s, t))
  }

  /** The end of the match (group 0) starting at `i`. */
  function UrlAt(s: string, i: nat): Option<nat> {
    if i > |s| then None else HostAt(s, SchemeEnd(s, i))
  }

  /** `(start, end)` of the leftmost match. */
  function UrlSearch(s: string): Option<(nat, nat)> {
    FirstMatch(0, |s|, j => UrlAt(s, j))
  }

  // ----- EDITOR  [0-9]{4}.*(\([Ee]ds?\.?\)) -----

  /** `\([Ee]ds?\.?\)` at `q`. */
  predicate EdMarkerAt(s: string, q: nat) {
    q + 4 <= |s| && s[q] == '(' && (s[q + 1] == 'e' || s[q + 1] == 'E') && s[q + 2] == 'd'
    && (var k := if s[q + 3] == 's' then q + 4 else q + 3;
        var c := if k < |s| && s[k] == '.' then k + 1 else k;
        c < |s| && s[c] == ')')
  }

  predicate FourDigitsAt(s: string, p: nat) {
    p + 4 <= |s| && IsDigit(s[p]) && IsDigit(s[p + 1]) && IsDigit(s[p + 2]) && IsDigit(s[p + 3])
  }

  /** `.*(\([Ee]ds?\.?\))` from `k`: a marker before the end of the line. */
  predicate EdMarkerOnLine(s: string, k: nat)
    decreases |s| - k
  {
    k < |s| && (EdMarkerAt(s, k) || (s[k] != '\n' && EdMarkerOnLine(s, k + 1)))
  }

  predicate EditorFrom(s: string, p: nat)
    decreases |s| - p
  {
    p < |s| && ((FourDigitsAt(s, p) && EdMarkerOnLine(s, p + 4)) || EditorFrom(s, p + 1))
  }

  /** `EDITOR.search(s)` succeeds. */
  predicate EditorSearch(s: string) { EditorFrom(s, 0) }

  // ----- CONFERENCEPATTERN  ([A-Z][^ ]*[A-Z][A-Z-a-z]]+) -----

  predicate IsConferenceClassChar(c: char) { IsAsciiLetter(c) || c == '-' }

  /** The greedy `[^ ]*` backs off: the second capital is tried at `j`, then further left. */
  function ConferenceBack(s: string, i: nat, j: nat): Option<nat>
    requires i < j <= |s|
    decreases j
  {
    if j + 2 < |s| && IsUpper(s[j]) && IsConferenceClassChar(s[j + 1]) && s[j + 2] == ']' then
      Some(RunEnd(s, j + 2, IsCloseBracket))
    else if j == i + 1 then None
    else ConferenceBack(s, i, j - 1)
  }

  function ConferenceAt(s: string, i: nat): Option<nat> {
    if i >= |s| || !IsUpper(s[i]) then None
    else ConferenceBack(s, i, RunEnd(s, i + 1, NotBlank))
  }

  /** `(start, end)` of the leftmost match; its only group is the whole match. */
  function ConferenceSearch(s: string): Option<(nat, nat)> {
    FirstMatch(0, |s|, j => ConferenceAt(s, j))
  }

  // ----- PROCEEDINGSPATTERN  (.* (?:Proceedings|Workshop|Conference|Symposium).*)\}$ -----

  /** The `}` that `\}$` can match: the last character, or the one before a final newline. */
  function FinalBrace(s: string): Option<nat> {
    if |s| >= 1 && s[|s| - 1] == '}' then Some(|s| - 1)
    else if |s| >= 2 && s[|s| - 1] == '\n' && s[|s| - 2] == '}' then Some(|s| - 2)
    else None
  }

  predicate HasMeetingWord(t: string) {
    Contains(t, " Proceedings") || Contains(t, " Workshop") || Contains(t, " Conference") || Contains(t, " Symposium")
  }

  /** `(start, end)` of group 1; the match is group 1 followed by `}`. */
  function ProceedingsSearch(s: string): Option<(nat, nat)> {
    match FinalBrace(s)
    case None => None
    case Some(e) =>
      var i := LineStart(s, e);
      if HasMeetingWord(s[i..e]) then Some((i, e)) else None
  }

  // ----- NUMBERVOLUME and PUBADDR, as the classification cascade uses them -----

  /** `NUMBERVOLUME.search(s)` succeeds: its volume group needs one character of `[-\.0-9/]`. */
  predicate NumberVolumeSearch(s: string) {
    exists k :: 0 <= k < |s| && IsSeriesNumberChar(s[k])
  }

  /** `[^\.]+` after `\.?` from `q`. */
  predicate PublisherTail(s: string, q: nat) {
    q < |s| && (s[q] != '.' || (q + 1 < |s| && s[q + 1] != '.'))
  }

  /** ` *(?P<publisher>[^:]\.?[^\.]+)` from `p`. */
  predicate PublisherFrom(s: string, p: nat)
    decreases |s| - p
  {
    p < |s| && ((s[p] != ':' && PublisherTail(s, p + 1)) || (s[p] == ' ' && PublisherFrom(s, p + 1)))
  }

  /** `(?P<address>.+) *:(?!/) *(?P<publisher>...)` with the colon at `c`. */
  predicate PubAddrAt(s: string, c: nat) {
    0 < c < |s| && s[c] == ':' && s[c - 1] != '\n'
    && (c + 1 == |s| || s[c + 1] != '/') && PublisherFrom(s, c + 1)
  }

  /** `PUBADDR.search(s)` succeeds. */
  predicate PubAddrSearch(s: string) {
    exists c :: 0 <= c < |s| && PubAddrAt(s, c)
  }

  // ----- PRESERVATIONPATTERN  \b(noun|noun|...)\b, as finditer runs it -----

  /** `\w`: letters, digits and `_` of ASCII and of the Latin-1 and Latin
      Extended blocks. */
  predicate IsWordChar(c: char) {
    IsAsciiLetter(c) || IsDigit(c) || c == '_'
    || c == '\U{00AA}' || c == '\U{00B2}' || c == '\U{00B3}' || c == '\U{00B5}' || c == '\U{00B9}' || c == '\U{00BA}'
    || ('\U{00BC}' <= c <= '\U{00BE}') || ('\U{00C0}' <= c <= '\U{00D6}') || ('\U{00D8}' <= c <= '\U{00F6}')
    || ('\U{00F8}' <= c <= '\U{024F}')
  }

  /** `\b` at position `p`. */
  predicate Boundary(s: string, p: nat) {
    var before := 0 < p <= |s| && IsWordChar(s[p - 1]);
    var after := p < |s| && IsWordChar(s[p]);
    before != after
  }

  /** The first noun, in vocabulary order, that matches as a whole word at `p`. */
  function NounAt(nouns: seq<string>, s: string, p: nat): (r: Option<string>)
    ensures r.Some? ==> r.value in nouns && 0 < |r.value| && p + |r.value| <= |s| && s[p..p + |r.value|] == r.value
    ensures r.Some? ==> Boundary(s, p) && Boundary(s, p + |r.value|)
  {
    if nouns == [] || p > |s| then None
    else
      var w := nouns[0];
      if |w| > 0 && Boundary(s, p) && w <= s[p..] && Boundary(s, p + |w|) then Some(w)
      else NounAt(nouns[1..], s, p)
  }

  /** The groups of `finditer` from position `p`: after a match the scan
      resumes where it ended. */
  function FindNouns(nouns: seq<string>, s: string, p: nat): (r: seq<string>)
    ensures forall k :: 0 <= k < |r| ==> r[k] in nouns && |r[k]| > 0 && Contains(s, r[k])
    decreases |s| + 1 - p
  {
    if p > |s| then []
    else match NounAt(nouns, s, p)
      case Some(w) =>
        ContainsAt(s, w, p);
        [w] + FindNouns(nouns, s, p + |w|)
      case None => FindNouns(nouns, s, p + 1)
  }

  lemma {:induction false} ContainsAt(s: string, w: string, p: nat)
    requires p + |w| <= |s| && s[p..p + |w|] == w
    ensures Contains(s, w)
    decreases p
  {
    if p > 0 {
      ContainsAt(s[1..], w, p - 1);
      assert s[1..][p - 1..p - 1 + |w|] == s[p..p + |w|];
    }
  }

  // ----- what the recognisers promise -----

  /** The three groups of a `TYPKEYFIELDS` match. */
  function EntryGroups(s: string, m: EntryMatch): (string, string, string)
    requires m.brace < m.comma <= |s| && m.body <= m.close <= |s|
  {
    (s[..m.brace], s[m.brace + 1..m.comma], s[m.body..m.close])
  }

  lemma FindCharIs(s: string, c: char, i: nat, p: nat)
    requires i <= p < |s| && s[p] == c && forall k :: i <= k < p ==> s[k] != c
    ensures FindChar(s, c, i) == Some(p)
  {
  }

  lemma RFindCharIs(s: string, c: char, j: nat, p: nat)
    requires p < j <= |s| && s[p] == c && forall k :: p < k < j ==> s[k] != c
    ensures RFindChar(s, c, j) == Some(p)
  {
  }

  lemma RunEndIs(s: string, i: nat, p: char -> bool, e: nat)
    requires i <= e < |s| && !p(s[e]) && forall k :: i <= k < e ==> p(s[k])
    ensures RunEnd(s, i, p) == e
  {
  }

  /** Where the delimiters of a written entry are. */
  lemma EntryLayout(typ: string, key: string, body: string)
    requires |body| > 0
    ensures var s := typ + "{" + key + ",\n\t" + body + "\n}";
      var b, c, w := |typ|, |typ| + 1 + |key|, |typ| + |key| + 4;
      && |s| == w + |body| + 2
      && s[b] == '{' && s[c] == ',' && s[c + 1] == '\n' && s[c + 2] == '\t' && s[w] == body[0] && s[|s| - 1] == '}'
      && (forall k :: 0 <= k < b ==> s[k] == typ[k])
      && (forall k :: b < k < c ==> s[k] == key[k - b - 1])
      && s[..b] == typ && s[b + 1..c] == key && s[w..|s| - 1] == body + "\n"
  {
  }

  /** TYPKEYFIELDS finds the delimiters where they are. */
  lemma TypKeyFieldsIs(s: string, b: nat, c: nat, w: nat, e: nat)
    requires 0 < b && b + 1 < c && c < w <= e == |s| - 1
    requires s[b] == '{' && s[c] == ',' && s[e] == '}' && !IsSpace(s[w])
    requires forall k :: 0 <= k < b ==> s[k] != '{'
    requires forall k :: b < k < c ==> s[k] != ','
    requires forall k :: c < k < w ==> IsSpace(s[k])
    ensures TypKeyFields(s) == Some(EntryMatch(b, c, w, e))
  {
    FindCharIs(s, '{', 0, b);
    FindCharIs(s, ',', b + 1, c);
    RFindCharIs(s, '}', |s|, e);
    RunEndIs(s, c + 1, IsSpace, w);
  }

  /** An entry written the way `bibtex()` writes one (less its `@`) is taken
      apart into the same type, key and field text. */
  lemma TypKeyFieldsRoundTrip(typ: string, key: string, body: string)
    requires |typ| > 0 && '{' !in typ
    requires |key| > 0 && ',' !in key
    requires |body| > 0 && !IsSpace(body[0])
    ensures var s := typ + "{" + key + ",\n\t" + body + "\n}";
      var r := TypKeyFields(s);
      r.Some? && EntryGroups(s, r.value) == (typ, key, body + "\n")
  {
    var s := typ + "{" + key + ",\n\t" + body + "\n}";
    var b, c, w, e := |typ|, |typ| + 1 + |key|, |typ| + |key| + 4, |s| - 1;
    EntryLayout(typ, key, body);
    forall k | 0 <= k < b ensures s[k] != '{' {
      assert typ[k] in typ;
    }
    forall k | b < k < c ensures s[k] != ',' {
      assert key[k - b - 1] in key;
    }
    TypKeyFieldsIs(s, b, c, w, e);
  }


  /** The text before a volume numeral: an optional `", "`, one of the words and spaces. */
  predicate IsVolumeWord(x: string) {
    x in ["Volume", "volume", "Vol", "vol", "Band", "Tome", "tome"]
    || (|x| == 4 && x[..3] in ["Vol", "vol"] && x[3] != '\n')
  }

  predicate IsVolumeLead(t: string) {
    var u := if ", " <= t then t[2..] else t;
    exists k :: 0 <= k <= |u| && IsVolumeWord(u[..k]) && forall m :: k <= m < |u| ==> u[m] == ' '
  }

  lemma {:induction false} FirstNumeralIn(s: string, ends: seq<nat>)
    ensures FirstNumeral(s, ends).Some? ==>
      exists i :: 0 <= i < |ends| && NumeralAfter(s, ends[i]) == FirstNumeral(s, ends)
  {
    if ends != [] && NumeralAfter(s, ends[0]).None? {
      FirstNumeralIn(s, ends[1..]);
      if FirstNumeral(s, ends).Some? {
        var i :| 0 <= i < |ends[1..]| && NumeralAfter(s, ends[1..][i]) == FirstNumeral(s, ends[1..]);
        assert NumeralAfter(s, ends[i + 1]) == FirstNumeral(s, ends);
      }
    } else if ends != [] {
      assert NumeralAfter(s, ends[0]) == FirstNumeral(s, ends);
    }
  }

  lemma VolumeWordFromPrefix(s: string, w: nat, e: nat, x: string)
    requires w + |x| == e <= |s| && x <= s[w..] && x in ["Volume", "volume", "Vol", "vol", "Band", "Tome", "tome"]
    ensures w + 3 <= e && IsVolumeWord(s[w..e])
  {
    assert s[w..e] == s[w..][..|x|] == x;
  }

  lemma VolWithAnyChar(s: string, w: nat, x: string)
    requires w + 4 <= |s| && x <= s[w..] && x in ["Vol", "vol"] && s[w + 3] != '\n'
    ensures IsVolumeWord(s[w..w + 4])
  {
    var y := s[w..w + 4];
    assert y[..3] == s[w..][..3] == x;
  }

  lemma VolumeWordEndsAreWords(s: string, w: nat, e: nat)
    requires e in VolumeWordEnds(s, w)
    ensures w + 3 <= e <= |s| && IsVolumeWord(s[w..e])
  {
    var rest := if w <= |s| then s[w..] else "";
    if e == w + 6 {
      if "Volume" <= rest { VolumeWordFromPrefix(s, w, e, "Volume"); } else { VolumeWordFromPrefix(s, w, e, "volume"); }
    } else if e == w + 3 {
      if "Vol" <= rest { VolumeWordFromPrefix(s, w, e, "Vol"); } else { VolumeWordFromPrefix(s, w, e, "vol"); }
    } else if "Band" <= rest {
      VolumeWordFromPrefix(s, w, e, "Band");
    } else if "Tome" <= rest {
      VolumeWordFromPrefix(s, w, e, "Tome");
    } else if "tome" <= rest {
      VolumeWordFromPrefix(s, w, e, "tome");
    } else if "Vol" <= rest {
      VolWithAnyChar(s, w, "Vol");
    } else {
      VolWithAnyChar(s, w, "vol");
    }
  }

  lemma VolumeLeadOf(s: string, i: nat, w: nat, e: nat, k: nat)
    requires i <= |s|
    requires w == (if ", " <= s[i..] then i + 2 else i)
    requires w + 3 <= e <= k <= |s|
    requires IsVolumeWord(s[w..e])
    requires forall q :: e <= q < k ==> s[q] == ' '
    ensures IsVolumeLead(s[i..k])
  {
    var t := s[i..k];
    assert (", " <= t) == (", " <= s[i..]) by {
      if ", " <= s[i..] { assert t[..2] == s[i..][..2]; }
      if ", " <= t { assert t[..2] == s[i..][..2]; }
    }
    var u := if ", " <= t then t[2..] else t;
    assert u == s[w..k];
    assert s[w..k][..e - w] == s[w..e];
    assert u[..e - w] == s[w..e];
    assert forall q :: e - w <= q < |u| ==> u[q] == s[w + q];
  }

  lemma VolumeAtShape(s: string, i: nat)
    requires VolumeAt(s, i).Some?
    ensures var m := VolumeAt(s, i).value;
      m.start == i && i < m.numeral < m.end <= |s|
      && IsVolumeLead(s[i..m.numeral])
      && forall k :: m.numeral <= k < m.end ==> IsNumeral(s[k])
  {
    var m := VolumeAt(s, i).value;
    var w := if ", " <= s[i..] then i + 2 else i;
    var ends := VolumeWordEnds(s, w);
    FirstNumeralIn(s, ends);
    var j :| 0 <= j < |ends| && NumeralAfter(s, ends[j]) == FirstNumeral(s, ends);
    var e := ends[j];
    VolumeWordEndsAreWords(s, w, e);
    VolumeLeadOf(s, i, w, e, m.numeral);
  }

  /** Where a volume match lies: a lead text then a numeral run, at the first
      position where `VolumeAt` matches. */
  lemma VolumeSearchBounds(s: string)
    ensures var r := VolumeSearch(s);
      r.Some? ==> (&& r.value.start < r.value.numeral < r.value.end <= |s|
                   && IsVolumeLead(s[r.value.start..r.value.numeral])
                   && (forall k :: r.value.numeral <= k < r.value.end ==> IsNumeral(s[k]))
                   && VolumeAt(s, r.value.start) == r
                   && forall j :: 0 <= j < r.value.start ==> VolumeAt(s, j).None?)
  {
    var at := j => VolumeAt(s, j);
    var f := FirstMatch(0, |s|, at);
    assert VolumeSearch(s) == if f.Some? then Some(f.value.1) else None;
    if f.Some? {
      var i := f.value.0;
      assert at(i) == Some(f.value.1);
      VolumeAtShape(s, i);
      forall j | 0 <= j < i
        ensures VolumeAt(s, j).None?
      {
        assert at(j).None?;
      }
    }
  }

  /** The volume search accepts exactly a lead text followed by a numeral:
      what it finds has that shape, with the greedy numeral run ending at a
      non-numeral; every lead text followed by a numeral is found at or after
      the match's start; and it fails exactly when no such text occurs. */
  lemma VolumeSearchShape(s: string)
    ensures var r := VolumeSearch(s);
      r.Some? ==> (&& r.value.start < r.value.numeral < r.value.end <= |s|
                   && IsVolumeLead(s[r.value.start..r.value.numeral])
                   && (forall k :: r.value.numeral <= k < r.value.end ==> IsNumeral(s[k]))
                   && (r.value.end == |s| || !IsNumeral(s[r.value.end]))
                   && forall j, n :: 0 <= j <= n < |s| && IsVolumeLead(s[j..n]) && IsNumeral(s[n]) ==>
                        r.value.start <= j)
    ensures VolumeSearch(s).None? <==>
      forall j, n :: 0 <= j <= n < |s| && IsVolumeLead(s[j..n]) ==> !IsNumeral(s[n])
  {
    VolumeSearchBounds(s);
    var r := VolumeSearch(s);
    if r.Some? {
      VolumeAtEnd(s, r.value.start);
    }
    forall j, n | 0 <= j <= n < |s| && IsVolumeLead(s[j..n]) && IsNumeral(s[n])
      ensures r.Some? && r.value.start <= j
    {
      VolumeLeadFound(s, j, n);
      VolumeSearchFound(s);
    }
  }

  /** The numeral run of a match at `i` is greedy: it ends at a non-numeral. */
  lemma VolumeAtEnd(s: string, i: nat)
    requires VolumeAt(s, i).Some?
    ensures var m := VolumeAt(s, i).value; m.end <= |s| && (m.end == |s| || !IsNumeral(s[m.end]))
  {
    var w := if ", " <= s[i..] then i + 2 else i;
    var ends := VolumeWordEnds(s, w);
    FirstNumeralIn(s, ends);
    var x :| 0 <= x < |ends| && NumeralAfter(s, ends[x]) == FirstNumeral(s, ends);
  }

  /** `FirstNumeral` succeeds once one of the word ends is followed by a numeral. */
  lemma {:induction false} FirstNumeralSome(s: string, ends: seq<nat>, e: nat)
    requires e in ends && NumeralAfter(s, e).Some?
    ensures FirstNumeral(s, ends).Some?
    decreases |ends|
  {
    if ends[0] != e && NumeralAfter(s, ends[0]).None? {
      FirstNumeralSome(s, ends[1..], e);
    }
  }

  lemma VolumeAtOfEnds(s: string, j: nat, w: nat)
    requires j <= |s| && w == (if ", " <= s[j..] then j + 2 else j)
    requires FirstNumeral(s, VolumeWordEnds(s, w)).Some?
    ensures VolumeAt(s, j).Some?
  {
  }

  /** Each volume word starting at `w` is one of the ends the word group tries. */
  lemma VolumeWordInEnds(s: string, w: nat, k: nat)
    requires w + k <= |s| && IsVolumeWord(s[w..w + k])
    ensures w + k in VolumeWordEnds(s, w)
  {
    var x := s[w..w + k];
    var rest := s[w..];
    assert rest[..k] == x;
    if |x| == 4 && x[..3] in ["Vol", "vol"] && x[3] != '\n' {
      assert rest[..3] == x[..3];
      assert rest[3] == x[3];
    }
  }

  /** The word and the spaces of a lead text at `j`, as positions in `s`. */
  lemma VolumeLeadParts(s: string, j: nat, n: nat) returns (w: nat, k: nat)
    requires j <= n <= |s| && IsVolumeLead(s[j..n])
    ensures w == (if ", " <= s[j..] then j + 2 else j)
    ensures w + k <= n && IsVolumeWord(s[w..w + k])
    ensures forall q :: w + k <= q < n ==> s[q] == ' '
  {
    var t := s[j..n];
    var c;
    c, k := VolumeLeadSplit(t);
    w := if ", " <= s[j..] then j + 2 else j;
    assert w == j + c by {
      assert t[..2] == s[j..][..2];
    }
    assert t[c..] == s[w..n];
    assert IsVolumeWord(s[w..w + k]) by {
      assert t[c..][..k] == s[w..w + k];
    }
    forall q | w + k <= q < n ensures s[q] == ' ' {
      assert s[q] == t[q - j];
    }
  }

  /** A lead text is `", "` or nothing (`c` characters), a volume word of `k`
      characters, then spaces. */
  lemma VolumeLeadSplit(t: string) returns (c: nat, k: nat)
    requires IsVolumeLead(t)
    ensures c == (if ", " <= t then 2 else 0) && c + k <= |t| && |t| >= 3
    ensures IsVolumeWord(t[c..][..k])
    ensures forall m :: c + k <= m < |t| ==> t[m] == ' '
  {
    var u := if ", " <= t then t[2..] else t;
    c := if ", " <= t then 2 else 0;
    k :| 0 <= k <= |u| && IsVolumeWord(u[..k]) && forall m :: k <= m < |u| ==> u[m] == ' ';
    VolumeWordLength(u[..k]);
    assert u == t[c..];
    forall m | c + k <= m < |t| ensures t[m] == ' ' {
      assert t[m] == u[m - c];
    }
  }

  /** A lead text at `j` followed by a numeral at `n` makes `VolumeAt(s, j)`
      succeed. */
  lemma VolumeLeadFound(s: string, j: nat, n: nat)
    requires j <= n < |s| && IsVolumeLead(s[j..n]) && IsNumeral(s[n])
    ensures VolumeAt(s, j).Some?
  {
    var w, k := VolumeLeadParts(s, j, n);
    VolumeWordInEnds(s, w, k);
    NumeralAfterSpaces(s, w + k, n);
    assert w + k in VolumeWordEnds(s, w);
    FirstNumeralSome(s, VolumeWordEnds(s, w), w + k);
    assert w == (if ", " <= s[j..] then j + 2 else j);
    VolumeAtOfEnds(s, j, w);
  }

  /** Spaces from `e` up to a numeral at `n` make ` *([0-9IVXivx]+)` match at `e`. */
  lemma NumeralAfterSpaces(s: string, e: nat, n: nat)
    requires e <= n < |s| && IsNumeral(s[n])
    requires forall q :: e <= q < n ==> s[q] == ' '
    ensures NumeralAfter(s, e).Some?
  {
    RunEndIs(s, e, IsBlank, n);
  }

  lemma VolumeWordLength(x: string)
    requires IsVolumeWord(x)
    ensures |x| >= 3
  {
  }

  lemma VolumeSearchFound(s: string)
    ensures VolumeSearch(s).None? <==> forall j :: 0 <= j <= |s| ==> VolumeAt(s, j).None?
  {
    var at := (j: nat) => VolumeAt(s, j);
    var f := FirstMatch(0, |s|, at);
    assert VolumeSearch(s) == if f.Some? then Some(f.value.1) else None;
    if f.Some? {
      assert VolumeAt(s, f.value.0).Some?;
    } else {
      forall j | 0 <= j <= |s| ensures VolumeAt(s, j).None? {
        assert at(j).None?;
      }
    }
  }

  lemma EvolvingNoVolumeAt0()
    ensures VolumeAt("Evolving", 0) == None
  {
    var s := "Evolving";
    assert s[0..][0] == 'E';
    assert VolumeWordEnds(s, 0) == [];
  }

  lemma EvolvingVolumeAt1()
    ensures VolumeAt("Evolving", 1) == Some(VolumeMatch(1, 5, 6))
  {
    var s := "Evolving";
    assert s[1..] == "volving";
    assert VolumeWordEnds(s, 1) == [5, 4];
    assert RunEnd(s, 5, IsBlank) == 5;
    assert RunEnd(s, 6, IsNumeral) == 6;
    assert RunEnd(s, 5, IsNumeral) == 6;
    assert NumeralAfter(s, 5) == Some((5, 6));
    assert FirstNumeral(s, [5, 4]) == Some((5, 6));
    assert s[1..][0] == 'v';
    assert !(", " <= s[1..]);
  }

  /** The volume words are not anchored at a word start: inside "Evolving"
      the search finds "volvi", whose numeral is the roman "i". */
  lemma VolumeInsideWord()
    ensures VolumeSearch("Evolving") == Some(VolumeMatch(1, 5, 6))
  {
    var s := "Evolving";
    EvolvingNoVolumeAt0();
    EvolvingVolumeAt1();
    var at := j => VolumeAt(s, j);
    assert at(0) == None && at(1) == Some(VolumeMatch(1, 5, 6));
    assert FirstMatch(1, |s|, at) == Some((1, VolumeMatch(1, 5, 6)));
    assert FirstMatch(0, |s|, at) == Some((1, VolumeMatch(1, 5, 6)));
  }

  /** The thesis search finds the first dissertation marker in the text; its
      first group is the rest of that marker's line before it. */
  lemma ThesisSearchShape(s: string)
    ensures var r := ThesisSearch(s);
      && (r.None? <==> forall p :: 0 <= p <= |s| ==> !ThesisMarkerAt(s, p))
      && (r.Some? ==> && r.value.start <= r.value.marker <= |s|
                      && ThesisMarkerAt(s, r.value.marker)
                      && (forall p :: 0 <= p < r.value.marker ==> !ThesisMarkerAt(s, p))
                      && (forall k :: r.value.start <= k < r.value.marker ==> s[k] != '\n')
                      && (r.value.start == 0 || s[r.value.start - 1] == '\n')
                      && r.value.doctoral == (" doctoral dissertation" <= s[r.value.marker..]))
  {
  }

  /** The second group is never "doctoral" or "PhD", only " doctoral" or absent. */
  lemma ThesisGroup2NeverDoctoral(m: ThesisMatch)
    ensures ThesisGroup2(m) != Some("doctoral") && ThesisGroup2(m) != Some("PhD")
  {
    assert " doctoral" != "doctoral";
    assert " doctoral" != "PhD";
  }

  /** A series match: the title, " (", the series, at least one space, a
      number of digits, '.', '-' or '/', and ")"; neither title nor series
      crosses a newline. */
  predicate SeriesShape(s: string, m: SeriesMatch) {
    && m.title + 2 <= m.seriesEnd < m.number < m.close < |s|
    && s[m.title] == ' ' && s[m.title + 1] == '(' && s[m.close] == ')'
    && (forall k :: m.seriesEnd <= k < m.number ==> s[k] == ' ')
    && (forall k :: m.number <= k < m.close ==> IsSeriesNumberChar(s[k]))
    && (forall k :: 0 <= k < m.seriesEnd ==> s[k] != '\n')
  }

  /** `re.match` of SERIESNUMBER: the match has the series shape; the greedy
      title takes the last ` (` on the first line that opens a series, the
      lazy series the first end that a number and `)` complete; and the
      search fails exactly when no ` (` on the first line opens a series. */
  lemma SeriesNumberShape(s: string)
    ensures SeriesNumber(s).Some? ==> SeriesShape(s, SeriesNumber(s).value)
    ensures var r := SeriesNumber(s); var lim := FirstLineEnd(s);
      && (r.Some? ==> && r.value.title <= lim && SeriesAt(s, r.value.title)
                      && (forall l :: r.value.title < l <= lim ==> !SeriesAt(s, l))
                      && r.value.seriesEnd < |s|
                      && forall q :: r.value.title + 2 <= q < r.value.seriesEnd ==> !SeriesEndsAt(s, q))
      && (r.None? <==> forall l :: 0 <= l <= lim ==> !SeriesAt(s, l))
  {
    SeriesTitleShape(s, FirstLineEnd(s));
    SeriesNumberGreedy(s);
    if SeriesNumber(s).Some? {
      SeriesNumberLazy(s);
    }
  }

  lemma SeriesNumberGreedy(s: string)
    ensures var r := SeriesNumber(s); var lim := FirstLineEnd(s);
      && (r.Some? ==> && r.value.title <= lim && SeriesAt(s, r.value.title)
                      && r == SeriesHere(s, r.value.title)
                      && forall l :: r.value.title < l <= lim ==> !SeriesAt(s, l))
      && (r.None? <==> forall l :: 0 <= l <= lim ==> !SeriesAt(s, l))
  {
    SeriesTitleGreedy(s, FirstLineEnd(s));
  }

  lemma SeriesNumberLazy(s: string)
    requires SeriesNumber(s).Some? && SeriesNumber(s) == SeriesHere(s, SeriesNumber(s).value.title)
    ensures var r := SeriesNumber(s);
      r.value.seriesEnd < |s| && forall q :: r.value.title + 2 <= q < r.value.seriesEnd ==> !SeriesEndsAt(s, q)
  {
    var l := SeriesNumber(s).value.title;
    SeriesFromLazy(s, l, l + 2);
  }

  /** The title end is tried from `l` down: the first success is the last ` (`. */
  lemma {:induction false} SeriesTitleGreedy(s: string, l: nat)
    ensures var r := SeriesTitleFrom(s, l);
      && (r.Some? ==> && r.value.title <= l && SeriesAt(s, r.value.title)
                      && r == SeriesHere(s, r.value.title)
                      && forall l' :: r.value.title < l' <= l ==> !SeriesAt(s, l'))
      && (r.None? ==> forall l' :: 0 <= l' <= l ==> !SeriesAt(s, l'))
    decreases l
  {
    var here := SeriesHere(s, l);
    if here.Some? {
      SeriesFromTitle(s, l, l + 2);
      assert SeriesTitleFrom(s, l) == here;
    } else if l > 0 {
      var r := SeriesTitleFrom(s, l - 1);
      assert SeriesTitleFrom(s, l) == r;
      SeriesTitleGreedy(s, l - 1);
      if r.Some? {
        forall l' | r.value.title < l' <= l ensures !SeriesAt(s, l') {
          if l' < l {
            assert r.value.title < l' <= l - 1;
          }
        }
      } else {
        forall l' | 0 <= l' <= l ensures !SeriesAt(s, l') {
          if l' < l {
            assert 0 <= l' <= l - 1;
          }
        }
      }
    }
  }

  lemma {:induction false} SeriesFromTitle(s: string, l: nat, q: nat)
    requires q <= |s|
    ensures SeriesFrom(s, l, q).Some? ==> SeriesFrom(s, l, q).value.title == l
    decreases |s| - q
  {
    if q < |s| && !SeriesEndsAt(s, q) && s[q] != '\n' {
      SeriesFromTitle(s, l, q + 1);
    }
  }

  /** The series grows one character at a time: it ends at the first place
      where spaces, a number and `)` follow. */
  lemma {:induction false} SeriesFromLazy(s: string, l: nat, q: nat)
    requires q <= |s|
    ensures var r := SeriesFrom(s, l, q);
      r.Some? ==> q <= r.value.seriesEnd < |s| && forall q' :: q <= q' < r.value.seriesEnd ==> !SeriesEndsAt(s, q')
    decreases |s| - q
  {
    if q < |s| && !SeriesEndsAt(s, q) && s[q] != '\n' {
      SeriesFromLazy(s, l, q + 1);
    }
  }

  /** Whether the series can end at `q`: spaces, then a number, then ")". */
  predicate SeriesEndsAt(s: string, q: nat)
    requires q < |s|
  {
    var r := RunEnd(s, q, IsBlank);
    var t := RunEnd(s, r, IsSeriesNumberChar);
    s[q] == ' ' && t > r && t < |s| && s[t] == ')'
  }

  lemma SeriesFromHere(s: string, l: nat, q: nat)
    requires q < |s| && l + 2 <= q
    requires forall k :: 0 <= k < q ==> s[k] != '\n'
    requires s[l] == ' ' && s[l + 1] == '('
    requires SeriesEndsAt(s, q)
    ensures SeriesFrom(s, l, q).Some? && SeriesShape(s, SeriesFrom(s, l, q).value)
  {
  }

  lemma SeriesFromNext(s: string, l: nat, q: nat)
    requires q < |s| && !SeriesEndsAt(s, q) && s[q] != '\n'
    ensures SeriesFrom(s, l, q) == SeriesFrom(s, l, q + 1)
  {
  }

  lemma {:induction false} SeriesFromShape(s: string, l: nat, q: nat)
    requires q <= |s| && l + 2 <= q
    requires forall k :: 0 <= k < q ==> s[k] != '\n'
    requires s[l] == ' ' && s[l + 1] == '('
    ensures var r := SeriesFrom(s, l, q); r.Some? ==> SeriesShape(s, r.value)
    decreases |s| - q
  {
    if q < |s| {
      if SeriesEndsAt(s, q) {
        SeriesFromHere(s, l, q);
      } else if s[q] != '\n' {
        SeriesFromNext(s, l, q);
        SeriesFromShape(s, l, q + 1);
      }
    }
  }

  lemma {:induction false} SeriesTitleShape(s: string, l: nat)
    requires forall k :: 0 <= k < l && k < |s| ==> s[k] != '\n'
    ensures var r := SeriesTitleFrom(s, l); r.Some? ==> SeriesShape(s, r.value)
    decreases l
  {
    if SeriesHere(s, l).Some? {
      SeriesFromShape(s, l, l + 2);
    } else if l > 0 {
      SeriesTitleShape(s, l - 1);
    }
  }

  // ----- dates -----

  lemma {:induction false} FirstEndSome(cands: seq<nat>, f: nat -> Option<nat>)
    ensures FirstEnd(cands, f).Some? <==> exists i :: 0 <= i < |cands| && f(cands[i]).Some?
  {
    if cands != [] {
      FirstEndSome(cands[1..], f);
      if f(cands[0]).None? && exists i :: 0 <= i < |cands| && f(cands[i]).Some? {
        var i :| 0 <= i < |cands| && f(cands[i]).Some?;
        assert cands[1..][i - 1] == cands[i];
      }
    }
  }

  lemma {:induction false} FirstEndBounded(cands: seq<nat>, f: nat -> Option<nat>, lo: nat, hi: nat)
    requires forall i :: 0 <= i < |cands| && f(cands[i]).Some? ==> lo < f(cands[i]).value <= hi
    ensures FirstEnd(cands, f).Some? ==> lo < FirstEnd(cands, f).value <= hi
  {
    if cands != [] && f(cands[0]).None? {
      forall i | 0 <= i < |cands[1..]| && f(cands[1..][i]).Some?
        ensures lo < f(cands[1..][i]).value <= hi
      {
        assert cands[1..][i] == cands[i + 1];
      }
      FirstEndBounded(cands[1..], f, lo, hi);
    }
  }

  lemma DayMonthYearBounds(s: string, g: nat, sep: Sep)
    ensures DayMonthYear(s, g, sep).Some? ==> g < DayMonthYear(s, g, sep).value <= |s|
  {
    var inner := (m: nat) => YearAfterMonth(s, sep, m);
    var outer := (d: nat) => MonthYearAfterDay(s, sep, d);
    var days := Day(s, g);
    forall i | 0 <= i < |days| && outer(days[i]).Some?
      ensures g < outer(days[i]).value <= |s|
    {
      FirstEndBounded(Month(s, days[i] + 1), inner, g, |s|);
    }
    FirstEndBounded(days, outer, g, |s|);
  }

  lemma MonthDayYearBounds(s: string, g: nat)
    ensures MonthDayYear(s, g).Some? ==> g < MonthDayYear(s, g).value <= |s|
  {
    var inner := (d: nat) => if SepAt(s, d, Lit('/')) && YearAt(s, d + 1) then Some(d + 5) else None;
    var outer := (m: nat) => if SepAt(s, m, Lit('/')) then FirstEnd(Day(s, m + 1), inner) else None;
    var months := Month(s, g);
    forall i | 0 <= i < |months| && outer(months[i]).Some?
      ensures g < outer(months[i]).value <= |s|
    {
      FirstEndBounded(Day(s, months[i] + 1), inner, g, |s|);
    }
    FirstEndBounded(months, outer, g, |s|);
  }

  lemma YearMonthDayBounds(s: string, g: nat)
    ensures YearMonthDay(s, g).Some? ==> g < YearMonthDay(s, g).value <= |s|
  {
    var ymd := (m: nat) => if SepAt(s, m, Lit('-')) && |Day(s, m + 1)| > 0 then Some(Day(s, m + 1)[0]) else None;
    FirstEndBounded(Month(s, g + 5), ymd, g, |s|);
  }

  lemma DateGroupEndBounds(s: string, g: nat)
    ensures DateGroupEnd(s, g).Some? ==> g < DateGroupEnd(s, g).value <= |s|
  {
    YearMonthDayBounds(s, g);
    DayMonthYearBounds(s, g, AnyChar);
    DayMonthYearBounds(s, g, Lit('/'));
    MonthDayYearBounds(s, g);
  }

  lemma UrlDateAtShape(s: string, i: nat)
    requires UrlDateAt(s, i).Some?
    ensures var m := UrlDateAt(s, i).value;
      m.start <= m.group < m.groupEnd <= m.end <= |s|
  {
    var g := if s[i] in "[(" then i + 1 else i;
    DateGroupEndBounds(s, g);
  }

  /** A date match: group 1 inside group 0, an optional opening bracket
      before it and an optional closing one after it, both outside group 1;
      group 1 starts with a year (`Y-M-D`) or ends with one (`D.M.Y`,
      `M/D/Y`), so its last character is a digit. */
  predicate DateShape(s: string, m: DateMatch) {
    && m.start <= m.group < m.groupEnd <= m.end <= |s|
    && m.group <= m.start + 1 && (m.group == m.start + 1 <==> s[m.start] in "[(")
    && m.end <= m.groupEnd + 1 && (m.end == m.groupEnd + 1 <==> m.groupEnd < |s| && s[m.groupEnd] in "])")
    && (YearAt(s, m.group) || (m.groupEnd >= 4 && YearAt(s, m.groupEnd - 4)))
    && IsDigit(s[m.groupEnd - 1])
  }

  /** The date search finds the leftmost date, and fails exactly when no
      position starts one. */
  lemma UrlDateSearchShape(s: string)
    ensures var r := UrlDateSearch(s);
      r.Some? ==> && r.value.start <= r.value.group < r.value.groupEnd <= r.value.end <= |s|
                  && DateShape(s, r.value)
                  && forall j :: 0 <= j < r.value.start ==> UrlDateAt(s, j).None?
    ensures UrlDateSearch(s).None? <==> forall j :: 0 <= j <= |s| ==> UrlDateAt(s, j).None?
  {
    var at := (j: nat) => UrlDateAt(s, j);
    var f := FirstMatch(0, |s|, at);
    if f.Some? {
      assert at(f.value.0) == Some(f.value.1);
      UrlDateAtShape(s, f.value.0);
      UrlDateAtYear(s, f.value.0);
      forall j | 0 <= j < f.value.0 ensures UrlDateAt(s, j).None? {
        assert at(j).None?;
      }
    } else {
      forall j | 0 <= j <= |s| ensures UrlDateAt(s, j).None? {
        assert at(j).None?;
      }
    }
  }

  lemma UrlDateAtYear(s: string, i: nat)
    requires UrlDateAt(s, i).Some?
    ensures DateShape(s, UrlDateAt(s, i).value)
  {
    var g := if s[i] in "[(" then i + 1 else i;
    UrlDateAtShape(s, i);
    DateGroupEndYear(s, g);
  }

  /** What a successful candidate list promises of each success holds of the first. */
  lemma {:induction false} FirstEndHolds(cands: seq<nat>, f: nat -> Option<nat>, P: nat -> bool)
    requires forall i :: 0 <= i < |cands| && f(cands[i]).Some? ==> P(f(cands[i]).value)
    ensures FirstEnd(cands, f).Some? ==> P(FirstEnd(cands, f).value)
  {
    if cands != [] && f(cands[0]).None? {
      forall i | 0 <= i < |cands[1..]| && f(cands[1..][i]).Some?
        ensures P(f(cands[1..][i]).value)
      {
        assert cands[1..][i] == cands[i + 1];
      }
      FirstEndHolds(cands[1..], f, P);
    }
  }

  /** A year ends just before `e`. */
  predicate YearBefore(s: string, e: nat) {
    e >= 4 && YearAt(s, e - 4)
  }

  lemma OneOrTwoDigitsEnd(s: string, k: nat, firsts: string)
    ensures forall i :: 0 <= i < |OneOrTwoDigits(s, k, firsts)| ==>
      var c := OneOrTwoDigits(s, k, firsts)[i]; k < c <= |s| && IsDigit(s[c - 1])
  {
  }

  lemma DateGroupEndYear(s: string, g: nat)
    ensures var e := DateGroupEnd(s, g);
      e.Some? ==> g < e.value <= |s| && (YearAt(s, g) || YearBefore(s, e.value)) && IsDigit(s[e.value - 1])
  {
    DateGroupEndBounds(s, g);
    YearMonthDayYear(s, g);
    DayMonthYearYear(s, g, AnyChar);
    DayMonthYearYear(s, g, Lit('/'));
    MonthDayYearYear(s, g);
  }

  lemma YearMonthDayYear(s: string, g: nat)
    ensures var e := YearMonthDay(s, g);
      e.Some? ==> YearAt(s, g) && e.value >= 1 && e.value <= |s| && IsDigit(s[e.value - 1])
  {
    var ymd := (m: nat) => if SepAt(s, m, Lit('-')) && |Day(s, m + 1)| > 0 then Some(Day(s, m + 1)[0]) else None;
    var P := (e: nat) => e >= 1 && e <= |s| && IsDigit(s[e - 1]);
    var months := Month(s, g + 5);
    forall i | 0 <= i < |months| && ymd(months[i]).Some?
      ensures P(ymd(months[i]).value)
    {
      OneOrTwoDigitsEnd(s, months[i] + 1, "0123");
    }
    FirstEndHolds(months, ymd, P);
  }

  lemma DayMonthYearYear(s: string, g: nat, sep: Sep)
    ensures var e := DayMonthYear(s, g, sep); e.Some? ==> YearBefore(s, e.value)
  {
    var inner := (m: nat) => YearAfterMonth(s, sep, m);
    var outer := (d: nat) => MonthYearAfterDay(s, sep, d);
    var P := (e: nat) => YearBefore(s, e);
    var days := Day(s, g);
    forall i | 0 <= i < |days| && outer(days[i]).Some?
      ensures P(outer(days[i]).value)
    {
      FirstEndHolds(Month(s, days[i] + 1), inner, P);
    }
    FirstEndHolds(days, outer, P);
  }

  lemma MonthDayYearYear(s: string, g: nat)
    ensures var e := MonthDayYear(s, g); e.Some? ==> YearBefore(s, e.value)
  {
    var inner := (d: nat) => if SepAt(s, d, Lit('/')) && YearAt(s, d + 1) then Some(d + 5) else None;
    var outer := (m: nat) => if SepAt(s, m, Lit('/')) then FirstEnd(Day(s, m + 1), inner) else None;
    var P := (e: nat) => YearBefore(s, e);
    var months := Month(s, g);
    forall i | 0 <= i < |months| && outer(months[i]).Some?
      ensures P(outer(months[i]).value)
    {
      FirstEndHolds(Day(s, months[i] + 1), inner, P);
    }
    FirstEndHolds(months, outer, P);
  }

  /** `www.`, a non-empty run of letters, digits and hyphens ending at `h`,
      a `.`, and a non-empty run of those and dots ending at `t`. */
  predicate HostShape(s: string, w: nat, h: nat, t: nat) {
    && w + 4 < h && h + 1 < t <= |s| && s[w..w + 4] == "www." && s[h] == '.'
    && (forall k :: w + 4 <= k < h ==> IsHostChar(s[k]))
    && (forall k :: h + 1 <= k < t ==> IsDomainChar(s[k]))
  }

  /** Nothing, or `/` and a non-empty run of non-spaces up to a space or the end. */
  predicate PathShape(s: string, t: nat, e: nat) {
    && t <= e <= |s|
    && (e == t || (s[t] == '/' && t + 1 < e && (forall k :: t < k < e ==> s[k] != ' ') && (e == |s| || s[e] == ' ')))
  }

  /** A URL match from `i` to `e`: an optional `http://` or `https://`, the
      host, and the optional path. The final `\.?` of the expression never
      adds a character: both runs before it already take every `.`. */
  predicate UrlShape(s: string, i: nat, e: nat) {
    i <= |s| && SchemeShape(s, i, SchemeEnd(s, i)) && HostPathShape(s, SchemeEnd(s, i), e)
  }

  /** The host from `w` and the optional path, ending at `e`. */
  predicate HostPathShape(s: string, w: nat, e: nat) {
    w + 4 <= |s| &&
    var h := RunEnd(s, w + 4, IsHostChar);
    h < |s| &&
    var t := RunEnd(s, h + 1, IsDomainChar);
    HostShape(s, w, h, t) && PathShape(s, t, e)
  }

  /** A URL match is a non-empty word without spaces of the URL shape; the
      search finds the leftmost one, finds one no later than any position
      where the shape starts, and fails exactly when the shape occurs
      nowhere. */
  lemma UrlSearchShape(s: string)
    ensures var r := UrlSearch(s);
      r.Some? ==> (&& r.value.0 < r.value.1 <= |s|
                   && (forall k :: r.value.0 <= k < r.value.1 ==> s[k] != ' ')
                   && UrlShape(s, r.value.0, r.value.1)
                   && forall j :: 0 <= j < r.value.0 ==> UrlAt(s, j).None?)
    ensures UrlSearch(s).None? <==> forall j :: 0 <= j <= |s| ==> UrlAt(s, j).None?
    ensures forall j, e :: UrlShape(s, j, e) ==> UrlSearch(s).Some? && UrlSearch(s).value.0 <= j
    ensures UrlSearch(s).None? <==> forall j, e :: !UrlShape(s, j, e)
  {
    var at := (j: nat) => UrlAt(s, j);
    var f := FirstMatch(0, |s|, at);
    UrlSearchSpan(s);
    forall j, e | UrlShape(s, j, e) ensures f.Some? && f.value.0 <= j {
      UrlShapeFound(s, j, e);
      assert at(j).Some?;
    }
    if f.Some? {
      assert at(f.value.0) == Some(f.value.1);
      UrlAtShape(s, f.value.0);
      forall j | 0 <= j < f.value.0 ensures UrlAt(s, j).None? {
        assert at(j).None?;
      }
    } else {
      forall j | 0 <= j <= |s| ensures UrlAt(s, j).None? {
        assert at(j).None?;
      }
    }
  }

  /** Wherever the URL shape starts, `UrlAt` matches. */
  lemma UrlShapeFound(s: string, j: nat, e: nat)
    requires UrlShape(s, j, e)
    ensures UrlAt(s, j).Some?
  {
    var w := SchemeEnd(s, j);
    assert HostPathShape(s, w, e);
    var h := RunEnd(s, w + 4, IsHostChar);
    var t := RunEnd(s, h + 1, IsDomainChar);
    assert HostShape(s, w, h, t);
    assert "www." <= s[w..] by {
      assert s[w..][..4] == s[w..w + 4];
    }
    assert HostAt(s, w) == Some(PathEnd(s, t));
  }

  /** A URL match is a non-empty word without spaces. */
  lemma UrlSearchSpan(s: string)
    ensures var r := UrlSearch(s);
      r.Some? ==> r.value.0 < r.value.1 <= |s| && forall k :: r.value.0 <= k < r.value.1 ==> s[k] != ' '
  {
    var at := (j: nat) => UrlAt(s, j);
    var f := FirstMatch(0, |s|, at);
    if f.Some? {
      assert at(f.value.0) == Some(f.value.1);
      UrlHasNoSpace(s, f.value.0);
    }
  }

  /** Nothing, `http://` or `https://` lies between `i` and `w`. */
  predicate SchemeShape(s: string, i: nat, w: nat) {
    i <= w <= |s| && (w == i || s[i..w] == "http://" || s[i..w] == "https://")
  }

  lemma SchemeEndShape(s: string, i: nat)
    requires i <= |s|
    ensures SchemeShape(s, i, SchemeEnd(s, i))
  {
  }

  lemma UrlAtShape(s: string, i: nat)
    requires UrlAt(s, i).Some?
    ensures UrlShape(s, i, UrlAt(s, i).value)
  {
    SchemeEndShape(s, i);
    HostAtShape(s, SchemeEnd(s, i));
  }

  lemma HostAtShape(s: string, w: nat)
    requires w <= |s| && HostAt(s, w).Some?
    ensures HostPathShape(s, w, HostAt(s, w).value)
  {
    assert s[w..w + 4] == "www.";
    var h := RunEnd(s, w + 4, IsHostChar);
    var t := RunEnd(s, h + 1, IsDomainChar);
    assert HostAt(s, w).value == PathEnd(s, t);
    PathEndShape(s, t);
  }

  lemma PathEndShape(s: string, t: nat)
    requires t <= |s| && (t == |s| || !IsDomainChar(s[t]))
    ensures PathShape(s, t, PathEnd(s, t))
  {
    var p := if t + 1 < |s| && s[t] == '/' && s[t + 1] != ' ' then RunEnd(s, t + 1, NotBlank) else t;
    assert IsDomainChar('.') && NotBlank('.');
    assert PathEnd(s, t) == p;
  }


  /** A candidate list whose every success under `f` is also one under `h`
      succeeds under `h` whenever it does under `f`. */
  lemma {:induction false} FirstEndWeaker(cands: seq<nat>, f: nat -> Option<nat>, h: nat -> Option<nat>)
    requires forall i :: 0 <= i < |cands| && f(cands[i]).Some? ==> h(cands[i]).Some?
    ensures FirstEnd(cands, f).Some? ==> FirstEnd(cands, h).Some?
  {
    if cands != [] && f(cands[0]).None? && h(cands[0]).None? {
      forall i | 0 <= i < |cands[1..]| && f(cands[1..][i]).Some?
        ensures h(cands[1..][i]).Some?
      {
        assert cands[1..][i] == cands[i + 1];
      }
      FirstEndWeaker(cands[1..], f, h);
    }
  }

  /** `.` matches the `/` a slash date has. */
  lemma SlashMonthYear(s: string, d: nat)
    ensures MonthYearAfterDay(s, Lit('/'), d).Some? ==> MonthYearAfterDay(s, AnyChar, d).Some?
  {
    FirstEndWeaker(Month(s, d + 1), (m: nat) => YearAfterMonth(s, Lit('/'), m), (m: nat) => YearAfterMonth(s, AnyChar, m));
  }

  /** Whenever the `D/M/Y` alternative of URLDATE would match, the `D.M.Y`
      alternative before it already does, so it never decides a match. */
  lemma SlashDateSubsumed(s: string, g: nat)
    ensures DayMonthYear(s, g, Lit('/')).Some? ==> DayMonthYear(s, g, AnyChar).Some?
    ensures DateGroupEnd(s, g) == (if YearMonthDay(s, g).Some? then YearMonthDay(s, g)
                                   else if DayMonthYear(s, g, AnyChar).Some? then DayMonthYear(s, g, AnyChar)
                                   else MonthDayYear(s, g))
  {
    var days := Day(s, g);
    forall i | 0 <= i < |days| ensures MonthYearAfterDay(s, Lit('/'), days[i]).Some? ==> MonthYearAfterDay(s, AnyChar, days[i]).Some? {
      SlashMonthYear(s, days[i]);
    }
    FirstEndWeaker(days, (d: nat) => MonthYearAfterDay(s, Lit('/'), d), (d: nat) => MonthYearAfterDay(s, AnyChar, d));
  }

  // ----- URL, EDITOR, conference and proceedings titles -----

  /** A URL match never contains a space, so a URL found in a note is one word. */
  lemma HostHasNoSpace(s: string, w: nat)
    requires w <= |s| && HostAt(s, w).Some?
    ensures w < HostAt(s, w).value <= |s|
    ensures forall k :: w <= k < HostAt(s, w).value ==> s[k] != ' '
  {
    assert s[w..w + 4] == "www.";
    var h := RunEnd(s, w + 4, IsHostChar);
    var t := RunEnd(s, h + 1, IsDomainChar);
    forall k | w <= k < t ensures s[k] != ' ' {
      if k < w + 4 {
        assert s[k] == "www."[k - w];
      }
    }
  }

  lemma UrlHasNoSpace(s: string, i: nat)
    requires UrlAt(s, i).Some?
    ensures i < UrlAt(s, i).value <= |s|
    ensures forall k :: i <= k < UrlAt(s, i).value ==> s[k] != ' '
  {
    HostHasNoSpace(s, SchemeEnd(s, i));
  }



  predicate NoNewline(s: string, a: nat, b: nat)
    requires a <= b <= |s|
  {
    forall k :: a <= k < b ==> s[k] != '\n'
  }

  /** An editor marker at `q`, with no line break between `k` and it. */
  predicate MarkerOnLineAt(s: string, k: nat, q: nat) {
    k <= q < |s| && NoNewline(s, k, q) && EdMarkerAt(s, q)
  }

  lemma {:induction false} EdMarkerOnLineIff(s: string, k: nat)
    ensures EdMarkerOnLine(s, k) <==> exists q: nat :: MarkerOnLineAt(s, k, q)
    decreases |s| - k
  {
    if k < |s| {
      EdMarkerOnLineIff(s, k + 1);
      if EdMarkerAt(s, k) {
        assert MarkerOnLineAt(s, k, k);
      }
      if exists q: nat :: MarkerOnLineAt(s, k, q) {
        var q: nat :| MarkerOnLineAt(s, k, q);
        if q > k {
          assert s[k] != '\n';
          assert MarkerOnLineAt(s, k + 1, q);
        }
      }
      if EdMarkerOnLine(s, k + 1) && !EdMarkerAt(s, k) && s[k] != '\n' {
        var q: nat :| MarkerOnLineAt(s, k + 1, q);
        assert MarkerOnLineAt(s, k, q);
      }
    }
  }

  /** Four digits at `p` followed, on the same line, by an editor marker at `q`. */
  predicate EditorAt(s: string, p: nat, q: nat) {
    p + 4 <= q && FourDigitsAt(s, p) && MarkerOnLineAt(s, p + 4, q)
  }

  /** EDITOR holds exactly when four digits precede, on the same line, one of
      (ed), (ed.), (eds), (eds.) with either case of E. */
  ghost predicate EditorShape(s: string) {
    exists p: nat, q: nat :: EditorAt(s, p, q)
  }

  lemma EditorHere(s: string, p: nat)
    ensures FourDigitsAt(s, p) && EdMarkerOnLine(s, p + 4) <==> exists q: nat :: EditorAt(s, p, q)
  {
    EdMarkerOnLineIff(s, p + 4);
    if FourDigitsAt(s, p) && EdMarkerOnLine(s, p + 4) {
      var q: nat :| MarkerOnLineAt(s, p + 4, q);
      assert EditorAt(s, p, q);
    }
  }

  lemma {:induction false} EditorFromIff(s: string, p: nat)
    ensures EditorFrom(s, p) <==> exists p': nat, q: nat :: p <= p' && EditorAt(s, p', q)
    decreases |s| - p
  {
    if p < |s| {
      EditorFromIff(s, p + 1);
      EditorHere(s, p);
      if exists p': nat, q: nat :: p <= p' && EditorAt(s, p', q) {
        var p': nat, q: nat :| p <= p' && EditorAt(s, p', q);
        if p' > p {
          assert EditorFrom(s, p + 1);
        }
      }
    }
  }

  lemma EditorSearchIff(s: string)
    ensures EditorSearch(s) <==> EditorShape(s)
  {
    EditorFromIff(s, 0);
  }

  lemma {:induction false} ConferenceBackShape(s: string, i: nat, j: nat)
    requires i < j <= |s|
    requires forall k :: i <= k < j ==> s[k] != ' '
    ensures var r := ConferenceBack(s, i, j);
      r.Some? ==> (&& i + 3 < r.value <= |s| && s[r.value - 1] == ']'
                   && forall k :: i <= k < r.value ==> s[k] != ' ')
    decreases j
  {
    if j + 2 < |s| && IsUpper(s[j]) && IsConferenceClassChar(s[j + 1]) && s[j + 2] == ']' {
      var e := RunEnd(s, j + 2, IsCloseBracket);
      assert s[e - 1] == ']';
    } else if j > i + 1 {
      ConferenceBackShape(s, i, j - 1);
    }
  }

  /** A conference match is one space-free word that starts with a capital and
      ends in `]`; a title without `]` never matches. */
  lemma ConferenceMatchShape(s: string)
    ensures var r := ConferenceSearch(s);
      r.Some? ==> (&& r.value.0 + 3 < r.value.1 <= |s| && IsUpper(s[r.value.0]) && s[r.value.1 - 1] == ']'
                   && forall k :: r.value.0 <= k < r.value.1 ==> s[k] != ' ')
  {
    var r := ConferenceSearch(s);
    if r.Some? {
      var i := r.value.0;
      ConferenceBackShape(s, i, RunEnd(s, i + 1, NotBlank));
    }
  }

  lemma ConferenceNeedsBracket(s: string)
    ensures ConferenceSearch(s).Some? ==> ']' in s
  {
    ConferenceMatchShape(s);
    var r := ConferenceSearch(s);
    if r.Some? {
      assert s[r.value.1 - 1] in s;
    }
  }

  /** A proceedings match is the last line of a value that ends in `}` (or
      `}` and a newline), and that line names a meeting. */
  lemma ProceedingsMatchShape(s: string)
    ensures var r := ProceedingsSearch(s);
      r.Some? ==> var (i, e) := r.value;
        && i <= e < |s| && s[e] == '}' && (e == |s| - 1 || (e == |s| - 2 && s[e + 1] == '\n'))
        && HasMeetingWord(s[i..e]) && NoNewline(s, i, e)
  {
  }
}
