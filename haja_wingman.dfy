/** The Haja-Wingman merger: two tables of airstrip rows keyed by ICAO code
    (the Haja list and the Wingman list) are joined over the union of their
    keys, filtered to Madagascar, merged field by field, validated,
    normalised, converted, and sorted by name.

    Table cells are what pandas hands out: a string, a number, or NaN for a
    blank cell.  The text a number is formatted to (`show`) and the
    collation key of a name (`coll`) are parameters. */
module HajaWingman {
  import opened PyText
  import opened PyNumber
  import opened Conversions
  import opened Airstrips

  datatype Cell = Str(s: string) | Num(x: real) | Missing

  /** `"{}".format(cell)`. */
  function Render(show: real -> string, c: Cell): string {
    match c
    case Str(s) => s
    case Num(x) => show(x)
    case Missing => "nan"
  }

  /** `cell if isinstance(cell, str) else "-"`. */
  function TextOrDash(c: Cell): string {
    if c.Str? then c.s else "-"
  }

  /** Python truth of a cell: NaN is true, zero and "" are false. */
  predicate Truthy(c: Cell) {
    match c
    case Str(s) => s != ""
    case Num(x) => x != 0.0
    case Missing => true
  }

  /** A row of the Haja list (the columns the merger reads). */
  datatype Haja = Haja(name: Cell, open: Cell, usage: Cell, latitude: Cell, longitude: Cell)

  /** A row of the Wingman list; `category` is the `Class` column and
      `elevation` the `Elev (ft)` column. */
  datatype Wingman = Wingman(
    ctry: Cell, name: Cell, latitude: Cell, longitude: Cell, elevation: Cell, closed: Cell,
    category: Cell, surface: Cell, length: Cell, width: Cell, lastInspection: Cell, owner: Cell, comments: Cell)

  /** A table index entry: an ICAO code, or the NaN of rows without one. */
  datatype Icao = Code(code: string) | NaNIndex

  // ================================================================ build_description

  /** The ten values of the description, in output order. */
  datatype Meta = Meta(
    icao: string, closed: string, category: string, usage: string, surface: string,
    length: string, width: string, inspection: string, owner: string, comments: string)

  /** The dictionary `meta` after its updates: defaults, then the Haja
      fields, then the Wingman fields, then the Wingman `Closed` value
      unless the Haja row already marked the strip closed. */
  function Fill(show: real -> string, icao: string, h: Option<Haja>, w: Option<Wingman>): (m: Meta)
    ensures m.icao == icao
    ensures m.closed == (if h.Some? && h.value.open == Str("Closed") then "Yes"
                         else if w.Some? then Render(show, w.value.closed)
                         else if h.Some? then "No" else "-")
    ensures m.usage == (if h.Some? then Render(show, h.value.usage) else "-")
    ensures w.None? ==> m.category == m.surface == m.length == m.width == m.inspection == m.owner == m.comments == "-"
    ensures w.Some? ==>
      (m.category == TextOrDash(w.value.category) && m.surface == TextOrDash(w.value.surface)
       && m.length == TextOrDash(w.value.length) && m.width == TextOrDash(w.value.width)
       && m.inspection == TextOrDash(w.value.lastInspection) && m.owner == TextOrDash(w.value.owner)
       && m.comments == TextOrDash(w.value.comments))
  {
    var m0 := Meta(icao, "-", "-", "-", "-", "-", "-", "-", "-", "-");
    var m1 := if h.Some? then
      m0.(closed := if h.value.open == Str("Closed") then "Yes" else "No", usage := Render(show, h.value.usage))
      else m0;
    if w.None? then m1
    else
      var r := w.value;
      var m2 := m1.(category := TextOrDash(r.category), surface := TextOrDash(r.surface),
                    length := TextOrDash(r.length), width := TextOrDash(r.width),
                    inspection := TextOrDash(r.lastInspection), owner := TextOrDash(r.owner),
                    comments := TextOrDash(r.comments));
      if m2.closed != "Yes" then m2.(closed := Render(show, r.closed)) else m2
  }

  const Labels: seq<string> := ["ICAO", "Closed", "Class", "Usage", "Surface", "Length", "Width", "last Inspection", "Owner", "Comments"]

  function Values(m: Meta): seq<string> {
    [m.icao, m.closed, m.category, m.usage, m.surface, m.length, m.width, m.inspection, m.owner, m.comments]
  }

  /** `label: value` for each of the ten fields. */
  function Fields(m: Meta): (f: seq<string>)
    ensures |f| == 10
  {
    seq(10, i requires 0 <= i < 10 => Labels[i] + ": " + Values(m)[i])
  }

  /** The format string of `build_description`: the ten fields joined by ", ". */
  function Describe(m: Meta): string {
    Join(Fields(m), ", ")
  }

  /** `build_description(icao, h, w)`. */
  function BuildDescription(show: real -> string, icao: string, h: Option<Haja>, w: Option<Wingman>): string {
    Describe(Fill(show, icao, h, w))
  }

  /** When no value holds a comma, the description cuts back at ", " into
      exactly the ten labelled fields, in the fixed order. */
  lemma DescriptionFields(m: Meta)
    requires forall i :: 0 <= i < 10 ==> Free(Values(m)[i], ',')
    ensures |Split(Describe(m), ", ")| == 10
    ensures forall i :: 0 <= i < 10 ==> Split(Describe(m), ", ")[i] == Labels[i] + ": " + Values(m)[i]
  {
    var f := Fields(m);
    forall i | 0 <= i < 10 ensures Free(f[i], ',') {
      assert Free(Labels[i], ',');
      FreeConcat(Labels[i], ": ", ',');
      FreeConcat(Labels[i] + ": ", Values(m)[i], ',');
    }
    SplitJoin(f, ", ");
  }

  // ================================================================ build_altitude

  /** `build_altitude(cell)`: a string loses its leading and trailing 'f'
      and 't' characters and is read by `float()`; what `float()` refuses,
      and NaN, become 0.0. */
  function BuildAltitude(c: Cell): real {
    match c
    case Str(s) =>
      (match FloatOf(StripBy(s, Chars({'f', 't'})))
       case Some(x) => x
       case None => 0.0)
    case Num(x) => x
    case Missing => 0.0
  }

  /** A run of digits followed by any mix of 'f' and 't' (such as "1200ft")
      reads as the number. */
  lemma AltitudeWithUnit(d: string, unit: string)
    requires |d| >= 1 && AllDigits(d)
    requires forall i :: 0 <= i < |unit| ==> unit[i] == 'f' || unit[i] == 't'
    ensures BuildAltitude(Str(d + unit)) == DigitsValue(d) as real
  {
    DigitsTail(d);
    DigitsDrop(d, |d| - 1);
    assert d[|d| - 1..] == [d[|d| - 1]];
    StripDropsSuffix(d, unit, Chars({'f', 't'}));
    FloatOfDigits(d);
  }

  /** Text that `float()` refuses once stripped gives altitude 0. */
  lemma AltitudeFallback(s: string)
    requires FloatOf(StripBy(s, Chars({'f', 't'}))).None?
    ensures BuildAltitude(Str(s)) == 0.0
  {
  }

  // ================================================================ name normalisation

  function CapitalizeEach(ps: seq<string>): (r: seq<string>)
    ensures |r| == |ps|
  {
    if ps == [] then [] else [Capitalize(ps[0])] + CapitalizeEach(ps[1..])
  }

  function LowerEach(ps: seq<string>): (r: seq<string>)
    ensures |r| == |ps|
  {
    if ps == [] then [] else [LowerAll(ps[0])] + LowerEach(ps[1..])
  }

  /** `'/'.join([w.capitalize() for w in x.split('/')])`. */
  function CapitalizeSegments(x: string): string {
    Join(CapitalizeEach(Split(x, "/")), "/")
  }

  /** One space-separated word: capitalised, then capitalised per '/' segment. */
  function NormaliseWord(word: string): string {
    CapitalizeSegments(Capitalize(word))
  }

  function NormaliseEach(ws: seq<string>): (r: seq<string>)
    ensures |r| == |ws|
  {
    if ws == [] then [] else [NormaliseWord(ws[0])] + NormaliseEach(ws[1..])
  }

  /** The name conversion of the merger (logic/haja_wingman.py, three lines
      building `words` and joining them with ' '). */
  function NormaliseName(name: string): string {
    Join(NormaliseEach(Split(name, " ")), " ")
  }

  predicate IsLetter(c: char) { 'a' <= c <= 'z' || 'A' <= c <= 'Z' }

  lemma CapitalizeFree(p: string, c: char)
    requires Free(p, c) && !IsLetter(c)
    ensures Free(Capitalize(p), c)
  {
  }

  lemma {:induction false} LowerAllTwice(p: string)
    ensures LowerAll(LowerAll(p)) == LowerAll(p)
  {
    var q := LowerAll(LowerAll(p));
    assert forall i :: 0 <= i < |p| ==> q[i] == LowerAll(p)[i];
  }

  lemma CapitalizeTwice(p: string)
    ensures Capitalize(Capitalize(p)) == Capitalize(p)
  {
    var q := Capitalize(Capitalize(p));
    assert forall i :: 0 <= i < |p| ==> q[i] == Capitalize(p)[i];
  }

  /** Capitalising ignores the case the text had. */
  lemma CapitalizeLower(p: string)
    ensures Capitalize(LowerAll(p)) == Capitalize(p)
  {
    var q := Capitalize(LowerAll(p));
    assert forall i :: 0 <= i < |p| ==> q[i] == Capitalize(p)[i];
  }

  lemma {:induction false} CapitalizeEachLower(ps: seq<string>)
    ensures CapitalizeEach(LowerEach(ps)) == CapitalizeEach(ps)
    decreases |ps|
  {
    if ps != [] {
      CapitalizeLower(ps[0]);
      CapitalizeEachLower(ps[1..]);
    }
  }

  lemma {:induction false} CapitalizeEachTwice(ps: seq<string>)
    ensures CapitalizeEach(CapitalizeEach(ps)) == CapitalizeEach(ps)
    decreases |ps|
  {
    if ps != [] {
      CapitalizeTwice(ps[0]);
      CapitalizeEachTwice(ps[1..]);
    }
  }

  lemma {:induction false} CapitalizeEachFree(ps: seq<string>, c: char)
    requires !IsLetter(c) && forall i :: 0 <= i < |ps| ==> Free(ps[i], c)
    ensures forall i :: 0 <= i < |ps| ==> Free(CapitalizeEach(ps)[i], c)
    decreases |ps|
  {
    if ps != [] {
      CapitalizeFree(ps[0], c);
      CapitalizeEachFree(ps[1..], c);
      assert forall i :: 1 <= i < |ps| ==> CapitalizeEach(ps)[i] == CapitalizeEach(ps[1..])[i - 1];
    }
  }

  /** Lower-casing does not move the '/' separators. */
  lemma {:induction false} SplitLower(s: string)
    ensures Split(LowerAll(s), "/") == LowerEach(Split(s, "/"))
    decreases |s|
  {
    var l := LowerAll(s);
    if s != [] {
      assert l[..1] == [Lower(s[0])] && l[1..] == LowerAll(s[1..]);
      assert s[..1] == [s[0]];
      SplitLower(s[1..]);
      if s[0] != '/' {
        var rest := Split(s[1..], "/");
        assert LowerEach([[s[0]] + rest[0]] + rest[1..]) == [[Lower(s[0])] + LowerAll(rest[0])] + LowerEach(rest[1..]) by {
          assert LowerAll([s[0]] + rest[0]) == [Lower(s[0])] + LowerAll(rest[0]);
          assert LowerEach(rest) == [LowerAll(rest[0])] + LowerEach(rest[1..]);
        }
      }
    }
  }

  /** The first capitalisation of a word changes nothing that the
      per-segment capitalisation does not redo. */
  lemma NormaliseWordSegments(word: string)
    ensures NormaliseWord(word) == CapitalizeSegments(word)
  {
    if word != [] {
      var t := word[1..];
      var rest := Split(t, "/");
      assert word[..1] == [word[0]];
      SplitLower(t);
      CapitalizeEachLower(rest);
      var c := Capitalize(word);
      assert c == [Upper(word[0])] + LowerAll(t);
      assert c[..1] == [Upper(word[0])] && c[1..] == LowerAll(t);
      if word[0] == '/' {
        assert CapitalizeEach(Split(c, "/")) == CapitalizeEach(Split(word, "/"));
      } else {
        var lrest := LowerEach(rest);
        assert Split(c, "/") == [[Upper(word[0])] + lrest[0]] + lrest[1..];
        assert Split(word, "/") == [[word[0]] + rest[0]] + rest[1..];
        assert Capitalize([Upper(word[0])] + lrest[0]) == Capitalize([word[0]] + rest[0]) by {
          CapitalizeLower(rest[0]);
          assert lrest[0] == LowerAll(rest[0]);
          var a := Capitalize([Upper(word[0])] + LowerAll(rest[0]));
          var b := Capitalize([word[0]] + rest[0]);
          assert forall i :: 0 <= i < |a| ==> a[i] == b[i] by {
            LowerAllTwice(rest[0]);
          }
        }
        assert CapitalizeEach(lrest[1..]) == CapitalizeEach(rest[1..]) by {
          assert lrest[1..] == LowerEach(rest[1..]);
          CapitalizeEachLower(rest[1..]);
        }
      }
    }
  }

  lemma NormaliseWordFree(word: string, c: char)
    requires Free(word, c) && !IsLetter(c) && c != '/'
    ensures Free(NormaliseWord(word), c)
  {
    NormaliseWordSegments(word);
    var ps := Split(word, "/");
    forall i | 0 <= i < |ps| ensures Free(ps[i], c) {
      SplitKeepsFree(word, "/", c);
    }
    CapitalizeEachFree(ps, c);
    JoinFree(CapitalizeEach(ps), "/", c);
  }

  lemma NormaliseWordTwice(word: string)
    ensures NormaliseWord(NormaliseWord(word)) == NormaliseWord(word)
  {
    var ps := Split(word, "/");
    var v := CapitalizeSegments(word);
    NormaliseWordSegments(word);
    NormaliseWordSegments(v);
    SplitPiecesFree(word, '/');
    CapitalizeEachFree(ps, '/');
    SplitJoin(CapitalizeEach(ps), "/");
    CapitalizeEachTwice(ps);
  }

  lemma {:induction false} NormaliseEachFree(ws: seq<string>, c: char)
    requires !IsLetter(c) && c != '/' && forall i :: 0 <= i < |ws| ==> Free(ws[i], c)
    ensures forall i :: 0 <= i < |ws| ==> Free(NormaliseEach(ws)[i], c)
    decreases |ws|
  {
    if ws != [] {
      NormaliseWordFree(ws[0], c);
      NormaliseEachFree(ws[1..], c);
      assert forall i :: 1 <= i < |ws| ==> NormaliseEach(ws)[i] == NormaliseEach(ws[1..])[i - 1];
    }
  }

  lemma {:induction false} NormaliseEachTwice(ws: seq<string>)
    ensures NormaliseEach(NormaliseEach(ws)) == NormaliseEach(ws)
    decreases |ws|
  {
    if ws != [] {
      NormaliseWordTwice(ws[0]);
      NormaliseEachTwice(ws[1..]);
    }
  }

  /** The normalised name has the words of the name, each normalised: as
      many words as before, and spaces only between them. */
  lemma NormaliseNameWords(name: string)
    ensures Split(NormaliseName(name), " ") == NormaliseEach(Split(name, " "))
    ensures |Split(NormaliseName(name), " ")| == |Split(name, " ")|
  {
    var ws := Split(name, " ");
    SplitPiecesFree(name, ' ');
    NormaliseEachFree(ws, ' ');
    SplitJoin(NormaliseEach(ws), " ");
  }

  /** Normalising a normalised name changes nothing. */
  lemma NormaliseNameTwice(name: string)
    ensures NormaliseName(NormaliseName(name)) == NormaliseName(name)
  {
    NormaliseNameWords(name);
    NormaliseEachTwice(Split(name, " "));
  }

  /** A single word with one '/' becomes its two halves, each capitalised. */
  lemma NormaliseSlashed(a: string, b: string)
    requires Free(a, '/') && Free(b, '/') && Free(a, ' ') && Free(b, ' ')
    ensures NormaliseName(a + "/" + b) == Capitalize(a) + "/" + Capitalize(b)
  {
    var s := a + "/" + b;
    assert Free(s, ' ') by {
      FreeConcat(a, "/", ' ');
      FreeConcat(a + "/", b, ' ');
    }
    SplitFree(s, " ");
    NormaliseWordSegments(s);
    assert Split(s, "/") == [a, b] by {
      SplitPrefix(a, "/", b);
      SplitFree(b, "/");
    }
    var caps := [Capitalize(a), Capitalize(b)];
    assert CapitalizeEach([a, b]) == caps;
    assert Join(caps, "/") == Capitalize(a) + "/" + Capitalize(b) by {
      assert caps[1..] == [Capitalize(b)];
    }
    assert NormaliseEach([s]) == [NormaliseWord(s)];
  }

  /** A hyphen does not start a segment: what follows it is lower-cased. */
  lemma HyphenLowers(x: string, y: string)
    requires x != []
    ensures Capitalize(x + "-" + y) == Capitalize(x) + "-" + LowerAll(y)
  {
    var s := x + "-" + y;
    var cx := Capitalize(x);
    var ly := LowerAll(y);
    var l := Capitalize(s);
    var r := cx + "-" + ly;
    forall i | 0 <= i < |s| ensures l[i] == r[i] {
      if i < |x| {
        assert s[i] == x[i] && r[i] == cx[i];
      } else if i == |x| {
        assert s[i] == '-' && r[i] == '-';
      } else {
        assert s[i] == y[i - |x| - 1] && r[i] == ly[i - |x| - 1];
      }
    }
  }

  // ================================================================ status

  /** `w.Class.lower()` when the class is "A", "B" or "C"; otherwise the
      conservative 'c'. */
  function ClassStatus(category: Cell): char {
    if category == Str("A") then 'a'
    else if category == Str("B") then 'b'
    else 'c'
  }

  predicate HajaClosed(h: Option<Haja>) { h.Some? && h.value.open == Str("Closed") }

  predicate WingmanClosed(w: Option<Wingman>) { w.Some? && w.value.closed == Str("Yes") }

  /** The status letter of the three row combinations (and of the
      unreachable case with neither row). */
  function Status(h: Option<Haja>, w: Option<Wingman>): (r: char)
    ensures r in {'a', 'b', 'c', 'x'}
    ensures r == 'x' <==> HajaClosed(h) || WingmanClosed(w)
    ensures r == 'a' <==> !HajaClosed(h) && !WingmanClosed(w) && w.Some? && w.value.category == Str("A")
    ensures r == 'b' <==> !HajaClosed(h) && !WingmanClosed(w) && w.Some? && w.value.category == Str("B")
  {
    if h.Some? && w.Some? then
      if h.value.open == Str("Closed") || w.value.closed == Str("Yes") then 'x'
      else ClassStatus(w.value.category)
    else if h.Some? then
      if h.value.open == Str("Closed") then 'x' else 'c'
    else if w.Some? then
      if w.value.closed == Str("Yes") then 'x'
      else ClassStatus(w.value.category)
    else 'c'
  }

  // ================================================================ one key

  /** The record assembled for one key before validation. */
  datatype Candidate = Candidate(name: Cell, description: string, latitude: Cell, longitude: Cell, altitude: real, status: char)

  /** The four-way field choice. */
  function Select(show: real -> string, icao: string, h: Option<Haja>, w: Option<Wingman>): (c: Candidate)
    ensures h.Some? ==> c.name == h.value.name
    ensures h.None? && w.Some? ==> c.name == w.value.name
    ensures w.Some? ==>
      (c.latitude == w.value.latitude && c.longitude == w.value.longitude
       && c.altitude == BuildAltitude(w.value.elevation))
    ensures h.Some? && w.None? ==> c.latitude == h.value.latitude && c.longitude == h.value.longitude
    ensures w.None? ==> c.altitude == 0.0
    ensures h.Some? || w.Some? ==> c.description == BuildDescription(show, icao, h, w)
    ensures c.status == Status(h, w)
  {
    if h.Some? && w.Some? then
      Candidate(h.value.name, BuildDescription(show, icao, h, w), w.value.latitude, w.value.longitude,
                BuildAltitude(w.value.elevation), Status(h, w))
    else if h.Some? then
      Candidate(h.value.name, BuildDescription(show, icao, h, None), h.value.latitude, h.value.longitude,
                0.0, Status(h, w))
    else if w.Some? then
      Candidate(w.value.name, BuildDescription(show, icao, None, w), w.value.latitude, w.value.longitude,
                BuildAltitude(w.value.elevation), Status(h, w))
    else
      Candidate(Str(""), "", Str(""), Str(""), 0.0, 'c')
  }

  /** What happens to one key: skipped (`continue`), accepted (appended),
      or an exception that ends the whole merge. */
  datatype Verdict = Skip | Accept(airstrip: Airstrip) | Abort(error: PyError)

  /** The country filter. */
  predicate OutsideMadagascar(w: Option<Wingman>) { w.Some? && w.value.ctry != Str("MG") }

  /** The required-values check: a false name, or a NaN coordinate. */
  predicate Invalid(c: Candidate) { !Truthy(c.name) || c.latitude == Missing || c.longitude == Missing }

  /** The body of the merge loop for one key. */
  function Evaluate(show: real -> string, icao: string, h: Option<Haja>, w: Option<Wingman>): Verdict
  {
    if OutsideMadagascar(w) then Skip
    else
      var c := Select(show, icao, h, w);
      if Invalid(c) then Skip
      else if !c.name.Str? then Abort(AttributeError)
      else if !c.latitude.Str? then Abort(AttributeError)
      else
        var lat := ParseCoord(Strip(c.latitude.s));
        if lat.Raises? then Abort(lat.error)
        else if !c.longitude.Str? then Abort(AttributeError)
        else
          var lng := ParseCoord(Strip(c.longitude.s));
          if lng.Raises? then Abort(lng.error)
          else if lat.NoMatch? || lng.NoMatch? then Skip
          else Accept(Create(NormaliseName(c.name.s), lat.value, lng.value,
                             Some(c.description), Some(FeetToMeters(c.altitude)), Some(c.status)))
  }

  /** A key whose Wingman row is outside Madagascar is skipped, whatever
      its Haja row holds. */
  lemma CountryFilter(show: real -> string, icao: string, h: Option<Haja>, w: Option<Wingman>)
    requires OutsideMadagascar(w)
    ensures Evaluate(show, icao, h, w) == Skip
  {
  }

  /** An accepted airstrip carries the normalised name, both parsed
      coordinates, the description, the altitude in metres and the status
      of its rows. */
  lemma Accepted(show: real -> string, icao: string, h: Option<Haja>, w: Option<Wingman>)
    requires Evaluate(show, icao, h, w).Accept?
    ensures var a := Evaluate(show, icao, h, w).airstrip; var c := Select(show, icao, h, w);
      !OutsideMadagascar(w) && !Invalid(c) && c.name.Str? && c.latitude.Str? && c.longitude.Str?
      && a.name == NormaliseName(c.name.s)
      && ParseCoord(Strip(c.latitude.s)) == Parsed(a.latitude)
      && ParseCoord(Strip(c.longitude.s)) == Parsed(a.longitude)
      && a.description == c.description
      && a.altitude == FeetToMeters(c.altitude)
      && a.status == Status(h, w) && a.status in {'a', 'b', 'c', 'x'}
  {
  }

  /** Skipped keys are exactly the filtered ones, the invalid ones, and
      those with a coordinate no grammar matches. */
  lemma Skipped(show: real -> string, icao: string, h: Option<Haja>, w: Option<Wingman>)
    ensures var c := Select(show, icao, h, w);
      Evaluate(show, icao, h, w) == Skip <==>
        OutsideMadagascar(w) || Invalid(c)
        || (c.name.Str? && c.latitude.Str? && c.longitude.Str?
            && !ParseCoord(Strip(c.latitude.s)).Raises? && !ParseCoord(Strip(c.longitude.s)).Raises?
            && (ParseCoord(Strip(c.latitude.s)).NoMatch? || ParseCoord(Strip(c.longitude.s)).NoMatch?))
  {
  }

  /** The only exceptions of the loop body: a name or a coordinate that is
      not a string (no `split` / `strip`), and a DD coordinate that
      `float()` refuses. */
  lemma Failures(show: real -> string, icao: string, h: Option<Haja>, w: Option<Wingman>)
    requires Evaluate(show, icao, h, w).Abort?
    ensures Evaluate(show, icao, h, w).error == AttributeError || Evaluate(show, icao, h, w).error == ValueError
  {
    var c := Select(show, icao, h, w);
    if c.latitude.Str? { ParseCoordOutcome(Strip(c.latitude.s)); }
    if c.longitude.Str? { ParseCoordOutcome(Strip(c.longitude.s)); }
  }

  // ================================================================ map

  function Lookup<V>(t: map<Icao, V>, k: Icao): Option<V> {
    if k in t then Some(t[k]) else None
  }

  /** The loop body for key `k` of the two tables. */
  function VerdictOf(show: real -> string, haja: map<Icao, Haja>, wingman: map<Icao, Wingman>, k: Icao): Verdict {
    Evaluate(show, if k.Code? then k.code else "", Lookup(haja, k), Lookup(wingman, k))
  }

  /** The airstrips the keys `ks` contribute, in that order. */
  function AirstripsOf(show: real -> string, haja: map<Icao, Haja>, wingman: map<Icao, Wingman>, ks: seq<Icao>): seq<Airstrip>
  {
    if ks == [] then []
    else
      var v := VerdictOf(show, haja, wingman, ks[|ks| - 1]);
      AirstripsOf(show, haja, wingman, ks[..|ks| - 1]) + (if v.Accept? then [v.airstrip] else [])
  }

  /** The merge result: the sorted airstrips, or the exception that ended it. */
  datatype Merged = Done(airstrips: seq<Airstrip>) | Raised(error: PyError)

  /** `HajaWingmanLogic.map(raw)`; `haja` and `wingman` are `raw['haja']`
      and `raw['wingman']`, None when the key is absent.  The keys are
      visited in no particular order.  On success `order` lists the
      accepted keys in the order they were appended. */
  method Map(show: real -> string, coll: string -> string, haja: Option<map<Icao, Haja>>, wingman: Option<map<Icao, Wingman>>)
    returns (r: Merged, ghost order: seq<Icao>)
    ensures haja.None? || wingman.None? ==> r == Raised(KeyError)
    ensures haja.Some? && wingman.Some? && NaNIndex !in haja.value.Keys + wingman.value.Keys ==> r == Raised(KeyError)
    ensures haja.Some? && wingman.Some? && NaNIndex in haja.value.Keys + wingman.value.Keys ==>
      var icaos := haja.value.Keys + wingman.value.Keys - {NaNIndex};
      (r.Raised? <==> exists k :: k in icaos && VerdictOf(show, haja.value, wingman.value, k).Abort?)
      && (r.Raised? ==> exists k :: k in icaos && VerdictOf(show, haja.value, wingman.value, k) == Abort(r.error))
      && (r.Done? ==>
            Sorted(coll, r.airstrips)
            && multiset(r.airstrips) == multiset(AirstripsOf(show, haja.value, wingman.value, order))
            && |r.airstrips| == |order|
            && (forall i, j :: 0 <= i < j < |order| ==> order[i] != order[j])
            && (forall k :: k in order <==> k in icaos && VerdictOf(show, haja.value, wingman.value, k).Accept?))
  {
    order := [];
    if haja.None? || wingman.None? {
      return Raised(KeyError), order;
    }
    var h, w := haja.value, wingman.value;
    var icaos := h.Keys + w.Keys;
    if NaNIndex !in icaos {
      return Raised(KeyError), order;
    }
    icaos := icaos - {NaNIndex};
    var airstrips := [];
    var left := icaos;
    while left != {}
      invariant left <= icaos
      invariant forall k :: k in icaos && k !in left ==> !VerdictOf(show, h, w, k).Abort?
      invariant forall k :: k in order <==> k in icaos && k !in left && VerdictOf(show, h, w, k).Accept?
      invariant forall i, j :: 0 <= i < j < |order| ==> order[i] != order[j]
      invariant airstrips == AirstripsOf(show, h, w, order)
      invariant |airstrips| == |order|
      decreases |left|
    {
      var k :| k in left;
      var v := VerdictOf(show, h, w, k);
      left := left - {k};
      match v {
        case Skip =>
        case Abort(e) =>
          return Raised(e), order;
        case Accept(a) =>
          assert (order + [k])[..|order|] == order;
          order := order + [k];
          airstrips := airstrips + [a];
      }
    }
    var sorted := SortByName(coll, airstrips);
    assert |sorted| == |airstrips| by {
      assert |multiset(sorted)| == |multiset(airstrips)|;
    }
    r := Done(sorted);
  }
}
