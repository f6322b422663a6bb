/** Writing a record back out: the `bibstring` the constructor leaves
    behind (bibtools.py lines 256-258), the text `bibtex()` returns
    (lines 659-676), and what reading that text again gives. */
module Output {
  import opened PyStr
  import opened BibPatterns
  import opened FieldState
  import opened Entry

  /** `excludefields`: the fields `bibtex()` leaves out. */
  const ExcludeFields: seq<string> :=
    ["abstract", "language", "date-added", "date-modified", "rating", "keywords",
     "issn", "timestamp", "owner", "optannote", "optkey", "optmonth", "optnumber",
     "url_checked", "optaddress", "eprinttype", "bdsk-file-1", "bdsk-file-2",
     "bdsk-file-3", "bdsk-url-1", "bdsk-url-2", "bdsk-url-3"]

  // ----- bibstring -----

  /** `"%s = {%s}" % (f, v)` for each field of `fs` whose value is neither
      "" nor `None`, in the order of `fs`. */
  function BraceLines(r: RecordState, fs: seq<string>): seq<string>
    decreases |fs|
  {
    if fs == [] then []
    else
      var v := Get(r, fs[0]);
      (if Truthy(v) then [fs[0] + " = {" + v.value + "}"] else []) + BraceLines(r, fs[1..])
  }

  function BibstringLines(r: RecordState): seq<string> {
    Sorted(BraceLines(r, r.order))
  }

  /** The record as the constructor leaves it in `bibstring`. */
  function Bibstring(r: RecordState, key: string): string {
    "@" + r.typ + "{" + key + ",\n\t" + Join(BibstringLines(r), FieldJoiner) + "\n}\n"
  }

  /** The braced line a field with a value contributes. */
  predicate BraceLineOf(r: RecordState, fs: seq<string>, x: string) {
    exists i :: 0 <= i < |fs| && Truthy(Get(r, fs[i])) && x == fs[i] + " = {" + Get(r, fs[i]).value + "}"
  }

  /** Exactly the fields with a value that is neither "" nor `None` get a line. */
  lemma {:induction false} BraceLinesMembers(r: RecordState, fs: seq<string>)
    ensures forall x :: x in BraceLines(r, fs) <==> BraceLineOf(r, fs, x)
    decreases |fs|
  {
    if fs != [] {
      BraceLinesMembers(r, fs[1..]);
      forall x | BraceLineOf(r, fs[1..], x) ensures BraceLineOf(r, fs, x) {
        var i :| 0 <= i < |fs[1..]| && Truthy(Get(r, fs[1..][i])) && x == fs[1..][i] + " = {" + Get(r, fs[1..][i]).value + "}";
        assert fs[i + 1] == fs[1..][i];
      }
      forall x | BraceLineOf(r, fs, x) ensures x in BraceLines(r, fs) {
        var i :| 0 <= i < |fs| && Truthy(Get(r, fs[i])) && x == fs[i] + " = {" + Get(r, fs[i]).value + "}";
        if i > 0 {
          assert fs[1..][i - 1] == fs[i];
          assert BraceLineOf(r, fs[1..], x);
        }
      }
    }
  }

  /** `bibstring` lists its lines in `sorted()` order, one for each field
      whose value is neither "" nor `None`, and no other. */
  lemma BibstringFields(r: RecordState)
    ensures SortedLex(BibstringLines(r))
    ensures forall x :: x in BibstringLines(r) <==> BraceLineOf(r, r.order, x)
  {
    SortedIsSortedPermutation(BraceLines(r, r.order));
    BraceLinesMembers(r, r.order);
    assert forall x :: x in BibstringLines(r) <==> x in multiset(BibstringLines(r));
  }

  // ----- bibtex() -----

  /** `fs` less the excluded fields. */
  function Kept(fs: seq<string>): seq<string>
    decreases |fs|
  {
    if fs == [] then []
    else (if fs[0] in ExcludeFields then [] else [fs[0]]) + Kept(fs[1..])
  }

  /** The fields `bibtex()` writes: the keys in `sorted()` order, less the
      excluded ones. */
  function OutputNames(r: RecordState): seq<string> {
    Kept(Sorted(r.order))
  }

  /** `(f, "%s" % fields[f])` for each `f`; a `None` value prints as "None". */
  function Pairs(r: RecordState, fs: seq<string>): (ps: seq<(string, string)>)
    ensures |ps| == |fs|
    ensures forall i :: 0 <= i < |fs| ==> ps[i] == (fs[i], Str(Get(r, fs[i])))
    decreases |fs|
  {
    if fs == [] then [] else [(fs[0], Str(Get(r, fs[0])))] + Pairs(r, fs[1..])
  }

  /** `"%s = %s" % (f, v)` for each pair. */
  function Lines(ps: seq<(string, string)>): (ls: seq<string>)
    ensures |ls| == |ps|
    ensures forall i :: 0 <= i < |ps| ==> ls[i] == ps[i].0 + " = " + ps[i].1
    decreases |ps|
  {
    if ps == [] then [] else [ps[0].0 + " = " + ps[0].1] + Lines(ps[1..])
  }

  /** The text `bibtex()` returns for a record that is not filtered out. */
  function BibtexText(r: RecordState, key: string): string {
    "@" + r.typ + "{" + key + ",\n\t" + Join(Lines(Pairs(r, OutputNames(r))), FieldJoiner) + "\n}"
  }

  lemma {:induction false} KeptMembers(fs: seq<string>)
    ensures forall f :: f in Kept(fs) <==> f in fs && f !in ExcludeFields
    decreases |fs|
  {
    if fs != [] {
      KeptMembers(fs[1..]);
      assert forall f :: f in fs <==> f == fs[0] || f in fs[1..];
    }
  }

  lemma {:induction false} KeptSorted(fs: seq<string>)
    requires SortedLex(fs)
    ensures SortedLex(Kept(fs))
    decreases |fs|
  {
    if fs != [] {
      var rest := fs[1..];
      assert SortedLex(rest) by {
        forall i, j | 0 <= i < j < |rest| ensures LexLe(rest[i], rest[j]) {
          assert rest[i] == fs[i + 1] && rest[j] == fs[j + 1];
        }
      }
      KeptSorted(rest);
      KeptMembers(rest);
      if fs[0] !in ExcludeFields {
        assert AllGe(fs[0], Kept(rest)) by {
          forall k | 0 <= k < |Kept(rest)| ensures LexLe(fs[0], Kept(rest)[k]) {
            assert Kept(rest)[k] in rest;
            var j :| 0 <= j < |rest| && rest[j] == Kept(rest)[k];
            assert fs[j + 1] == rest[j];
          }
        }
        SortedCons(fs[0], Kept(rest));
      }
    }
  }

  lemma {:induction false} KeptDistinct(fs: seq<string>)
    requires Distinct(fs)
    ensures Distinct(Kept(fs))
    decreases |fs|
  {
    if fs != [] {
      var rest := fs[1..];
      assert Distinct(rest) by {
        forall i, j | 0 <= i < j < |rest| ensures rest[i] != rest[j] {
          assert rest[i] == fs[i + 1] && rest[j] == fs[j + 1];
        }
      }
      KeptDistinct(rest);
      KeptMembers(rest);
      if fs[0] !in ExcludeFields {
        assert fs[0] !in rest by {
          forall j | 0 <= j < |rest| ensures rest[j] != fs[0] {
            assert rest[j] == fs[j + 1];
          }
        }
        var k := Kept(fs);
        assert k == [fs[0]] + Kept(rest);
        forall i, j | 0 <= i < j < |k| ensures k[i] != k[j] {
          if i == 0 {
            assert k[j] == Kept(rest)[j - 1];
          } else {
            assert k[i] == Kept(rest)[i - 1] && k[j] == Kept(rest)[j - 1];
          }
        }
      }
    }
  }

  /** A list without repeats has each element once. */
  lemma {:induction false} DistinctCounts(xs: seq<string>, x: string)
    requires Distinct(xs)
    ensures multiset(xs)[x] <= 1
    decreases |xs|
  {
    if xs != [] {
      assert xs == [xs[0]] + xs[1..];
      assert Distinct(xs[1..]) by {
        forall i, j | 0 <= i < j < |xs[1..]| ensures xs[1..][i] != xs[1..][j] {
          assert xs[1..][i] == xs[i + 1] && xs[1..][j] == xs[j + 1];
        }
      }
      DistinctCounts(xs[1..], x);
      if xs[0] == x {
        assert x !in xs[1..] by {
          forall k | 0 <= k < |xs[1..]| ensures xs[1..][k] != x {
            assert xs[1..][k] == xs[k + 1];
          }
        }
      }
    }
  }

  /** A rearrangement of a list without repeats has none either. */
  lemma PermutationDistinct(xs: seq<string>, ys: seq<string>)
    requires Distinct(xs) && multiset(xs) == multiset(ys)
    ensures Distinct(ys)
  {
    forall i, j | 0 <= i < j < |ys| ensures ys[i] != ys[j] {
      if ys[i] == ys[j] {
        var x := ys[i];
        assert ys == ys[..j] + [ys[j]] + ys[j + 1..];
        assert x in ys[..j];
        assert multiset(ys)[x] == multiset(ys[..j])[x] + 1 + multiset(ys[j + 1..])[x];
        DistinctCounts(xs, x);
      }
    }
  }

  /** `bibtex()` writes each field that is not excluded once, in `sorted()`
      order, and no other field. */
  lemma OutputNamesFacts(r: RecordState)
    requires Valid(r)
    ensures forall f :: f in OutputNames(r) <==> f in r.vals && f !in ExcludeFields
    ensures SortedLex(OutputNames(r))
    ensures Distinct(OutputNames(r))
  {
    var s := Sorted(r.order);
    SortedIsSortedPermutation(r.order);
    assert forall f :: f in s <==> f in multiset(s);
    KeptMembers(s);
    KeptSorted(s);
    PermutationDistinct(r.order, s);
    KeptDistinct(s);
  }

  // ----- reading the output back -----

  /** Each field `bibtex()` writes can be read back as written: a plain
      lower-case name and a value on one line that ends with a brace. */
  predicate Rereadable(r: RecordState) {
    forall f :: f in r.vals && f !in ExcludeFields ==>
      && PlainName(f)
      && Get(r, f).Some? && PlainValue(Get(r, f).value)
      && Get(r, f).value[|Get(r, f).value| - 1] == '}'
  }

  /** A plain line, tabbed or not, reads back as its name and value. */
  lemma ReadLine(lead: string, f: string, v: string)
    requires lead == "" || lead == "\t"
    requires PlainName(f) && PlainValue(v)
    ensures SplitAtEquals(lead + (f + " = " + v)) == Some((lead + f, v))
    ensures FieldName(lead + f) == f && FieldValue(v) == v
  {
    SplitLine(lead, f, v);
    NameReadsBack(lead, f);
    ValueReadsBack(v);
    ConcatAssoc(lead, f, " = ", v);
  }

  lemma ConcatAssoc(a: string, b: string, c: string, d: string)
    ensures a + (b + c + d) == a + b + c + d
  {
  }


  /** Every pair has a plain name and a plain value. */
  predicate PlainPairs(ps: seq<(string, string)>)
    decreases |ps|
  {
    ps == [] || (PlainName(ps[0].0) && PlainValue(ps[0].1) && PlainPairs(ps[1..]))
  }

  /** One more line in front that reads as `p` puts `p` in front. */
  lemma ReadCons(x: string, t: seq<string>, p: (string, string), rest: seq<(string, string)>)
    requires SplitAtEquals(x).Some?
    requires FieldName(SplitAtEquals(x).value.0) == p.0 && FieldValue(SplitAtEquals(x).value.1) == p.1
    requires FieldPairs(t) == Some(rest)
    ensures FieldPairs([x] + t) == Some([p] + rest)
  {
    assert ([x] + t)[1..] == t;
  }

  /** The tabbed lines of the pairs read back as the pairs. */
  lemma {:induction false} ReadTabbed(ps: seq<(string, string)>)
    requires PlainPairs(ps)
    ensures FieldPairs(Tabbed(Lines(ps))) == Some(ps)
    decreases |ps|
  {
    if ps != [] {
      var tail := ps[1..];
      ReadTabbed(tail);
      ReadLine("\t", ps[0].0, ps[0].1);
      assert Lines(ps) == [ps[0].0 + " = " + ps[0].1] + Lines(tail);
      assert Tabbed(Lines(ps)) == ["\t" + (ps[0].0 + " = " + ps[0].1)] + Tabbed(Lines(tail));
      ReadCons("\t" + (ps[0].0 + " = " + ps[0].1), Tabbed(Lines(tail)), ps[0], tail);
      ConsTail(ps);
    }
  }

  /** The first line, without a tab, and then the tabbed ones read back as the pairs. */
  lemma ReadLines(ps: seq<(string, string)>)
    requires |ps| > 0 && PlainPairs(ps)
    ensures FieldPairs([Lines(ps)[0]] + Tabbed(Lines(ps)[1..])) == Some(ps)
  {
    var tail := ps[1..];
    ReadTabbed(tail);
    var x := ps[0].0 + " = " + ps[0].1;
    ReadLine("", ps[0].0, ps[0].1);
    EmptyLead(x);
    EmptyLead(ps[0].0);
    assert Lines(ps)[0] == x;
    assert Lines(ps)[1..] == Lines(tail);
    ReadCons(x, Tabbed(Lines(tail)), ps[0], tail);
    ConsTail(ps);
  }

  lemma ConsTail(ps: seq<(string, string)>)
    requires |ps| > 0
    ensures [ps[0]] + ps[1..] == ps
  {
  }

  lemma EmptyLead(x: string)
    ensures "" + x == x
  {
  }

  /** A joined text starts with its first part. */
  lemma JoinStarts(parts: seq<string>, sep: string)
    requires |parts| > 0
    ensures parts[0] <= Join(parts, sep)
  {
    if |parts| > 1 {
      assert Join(parts, sep) == parts[0] + (sep + Join(parts[1..], sep));
    }
  }

  /** A joined text ends with its last part. */
  lemma {:induction false} JoinFinishes(parts: seq<string>, sep: string)
    requires |parts| > 0
    ensures EndsWith(Join(parts, sep), parts[|parts| - 1])
    decreases |parts|
  {
    if |parts| > 1 {
      var tail := parts[1..];
      JoinFinishes(tail, sep);
      var t := Join(tail, sep);
      var last := parts[|parts| - 1];
      assert tail[|tail| - 1] == last;
      var j := Join(parts, sep);
      assert j == (parts[0] + sep) + t;
      assert j[|j| - |last|..] == t[|t| - |last|..];
    }
  }

  /** Stripping a text with one newline after it gives the text back. */
  lemma StripNewline(x: string)
    requires |x| > 0 && !IsSpace(x[0]) && !IsSpace(x[|x| - 1])
    ensures Strip(x + "\n") == x
  {
    var y := x + "\n";
    assert LStrip(y) == y;
    assert y[..|y| - 1] == x;
    assert RStrip(y) == RStrip(x) == x;
  }

  /** A plain name and a plain value ending with a brace make a line the
      separator can follow. */
  lemma LineBraced(f: string, v: string)
    requires PlainName(f) && PlainValue(v) && v[|v| - 1] == '}'
    ensures OneLineBraced(f + " = " + v)
  {
    var x := f + " = " + v;
    assert x[|x| - 1] == v[|v| - 1];
    assert '\n' !in f;
  }

  /** The written fields give plain pairs and lines the separator can follow. */
  lemma {:induction false} PlainLines(r: RecordState, fs: seq<string>)
    requires Rereadable(r)
    requires forall f :: f in fs ==> f in r.vals && f !in ExcludeFields
    ensures PlainPairs(Pairs(r, fs))
    ensures forall i :: 0 <= i < |fs| ==> OneLineBraced(Lines(Pairs(r, fs))[i])
    decreases |fs|
  {
    if fs != [] {
      PlainLines(r, fs[1..]);
      assert Pairs(r, fs)[1..] == Pairs(r, fs[1..]);
      forall i | 0 <= i < |fs| ensures OneLineBraced(Lines(Pairs(r, fs))[i]) {
        assert fs[i] in fs;
        LineBraced(fs[i], Get(r, fs[i]).value);
      }
    }
  }

  /** The joined lines, once the entry parser has cut them out and stripped
      them, read back as the pairs. */
  lemma BodyReads(ps: seq<(string, string)>)
    requires |ps| > 0 && PlainPairs(ps)
    requires forall i :: 0 <= i < |ps| ==> OneLineBraced(Lines(ps)[i])
    ensures var body := Join(Lines(ps), FieldJoiner);
      && |body| > 0 && !IsSpace(body[0]) && !IsSpace(body[|body| - 1])
      && FieldPairs(Chunks(Strip(body + "\n"))) == Some(ps)
  {
    var lines := Lines(ps);
    var body := Join(lines, FieldJoiner);
    ChunksOfJoin(lines);
    JoinStarts(lines, FieldJoiner);
    JoinFinishes(lines, FieldJoiner);
    assert body[0] == lines[0][0] == ps[0].0[0];
    assert body[|body| - 1] == lines[|lines| - 1][|lines[|lines| - 1]| - 1];
    StripNewline(body);
    ReadLines(ps);
  }

  lemma DropAt(typ: string, key: string, body: string)
    ensures ("@" + typ + "{" + key + ",\n\t" + body + "\n}")[1..] == typ + "{" + key + ",\n\t" + body + "\n}"
  {
    var t := "@" + typ + "{" + key + ",\n\t" + body + "\n}";
    assert t == "@" + (typ + "{" + key + ",\n\t" + body + "\n}");
  }

  /** The entry parser reads a written entry back as its type, its key and
      the pairs in the order written. */
  lemma ParseBack(typ: string, key: string, ps: seq<(string, string)>)
    requires |typ| > 0 && '{' !in typ && forall k :: 0 <= k < |typ| ==> !IsUpper(typ[k])
    requires |key| > 0 && ',' !in key
    requires |ps| > 0 && PlainPairs(ps)
    requires forall i :: 0 <= i < |ps| ==> OneLineBraced(Lines(ps)[i])
    ensures ParseEntry(typ + "{" + key + ",\n\t" + Join(Lines(ps), FieldJoiner) + "\n}")
      == Fields(typ, key, PutAll(RecordState(typ, map[], [], []), ps))
  {
    BodyReads(ps);
    TypKeyFieldsRoundTrip(typ, key, Join(Lines(ps), FieldJoiner));
    LowerSame(typ);
  }

  /** Filling an empty dictionary from the written pairs gives each written
      field its value and nothing else. */
  lemma FillFromPairs(r: RecordState, names: seq<string>)
    requires Distinct(names)
    requires forall f :: f in names ==> Get(r, f).Some?
    ensures var d := PutAll(RecordState(r.typ, map[], [], []), Pairs(r, names));
      && d.typ == r.typ && d.errors == [] && d.order == names
      && forall f :: Get(d, f) == if f in names then Get(r, f) else None
  {
    var ps := Pairs(r, names);
    assert Names(ps) == names;
    PutAllFresh(RecordState(r.typ, map[], [], []), ps);
    var d := PutAll(RecordState(r.typ, map[], [], []), ps);
    forall f | f in names ensures Get(d, f) == Get(r, f) {
      var i :| 0 <= i < |names| && names[i] == f;
      assert ps[i].0 == f;
    }
  }

  /** Reading back what `bibtex()` writes, after the `@` that the batch
      split takes away, gives the same type and key, and the written fields
      with their values in `sorted()` order; the excluded fields are gone. */
  lemma BibtexRoundTrip(r: RecordState, key: string)
    requires Valid(r) && Rereadable(r)
    requires |r.typ| > 0 && '{' !in r.typ && forall k :: 0 <= k < |r.typ| ==> !IsUpper(r.typ[k])
    requires |key| > 0 && ',' !in key
    requires |OutputNames(r)| > 0
    ensures BibtexText(r, key)[0] == '@'
    ensures var p := ParseEntry(BibtexText(r, key)[1..]);
      && p.Fields? && p.typ == r.typ && p.key == key
      && p.fields.typ == r.typ && p.fields.errors == []
      && p.fields.order == OutputNames(r)
      && (forall f :: Get(p.fields, f) == if f in ExcludeFields then None else Get(r, f))
  {
    var names := OutputNames(r);
    OutputNamesFacts(r);
    var ps := Pairs(r, names);
    PlainLines(r, names);
    ParseBack(r.typ, key, ps);
    DropAt(r.typ, key, Join(Lines(ps), FieldJoiner));
    FillFromPairs(r, names);
  }
}
