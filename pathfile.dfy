/**
 * The machine-readable part of a saved path file (tri_arb.py:109-110) and
 * `load_paths_from_file` (tri_arb.py:115-138): the loader looks for the
 * first `[[[` in the file's text and decodes the JSON from there on.  Only
 * the shape the writer produces is decoded: a non-empty list of non-empty
 * lists of `["SYMBOL", 1]` / `["SYMBOL", -1]` pairs, with JSON's default
 * `", "` separator.
 */
module PathFile {
  import opened Symbols
  import opened PathFinder

  /** Whether `pat` occurs in `s` starting at index `i`. */
  predicate OccursAt(s: string, pat: string, i: nat) {
    i + |pat| <= |s| && s[i..i + |pat|] == pat
  }

  /** Python's `str.find` from index `from`: the lowest index where `pat` occurs, or None for -1. */
  function Find(s: string, pat: string, from: nat): (r: Option<nat>)
    requires from <= |s|
    ensures r.Some? ==> from <= r.value && OccursAt(s, pat, r.value)
    ensures r.Some? ==> forall j :: from <= j < r.value ==> !OccursAt(s, pat, j)
    ensures r.None? ==> forall j :: from <= j <= |s| ==> !OccursAt(s, pat, j)
    decreases |s| - from
  {
    if OccursAt(s, pat, from) then Some(from)
    else if from == |s| then None
    else Find(s, pat, from + 1)
  }

  predicate StartsWith(s: string, p: string) {
    |p| <= |s| && s[..|p|] == p
  }

  /** A symbol JSON writes without escapes: printable ASCII other than a quote or a backslash. */
  predicate PlainSymbol(sym: string) {
    forall k :: 0 <= k < |sym| ==> ' ' <= sym[k] <= '~' && sym[k] != '"' && sym[k] != '\\'
  }

  /** A leg the writer produces and the loader reads back. */
  predicate Encodable(l: Leg) {
    PlainSymbol(l.symbol) && (l.dir == 1 || l.dir == -1)
  }

  predicate AllEncodable(legs: seq<Leg>) {
    forall k :: 0 <= k < |legs| ==> Encodable(legs[k])
  }

  /** Non-empty paths of encodable legs, as discovery produces them. */
  predicate Dumpable(ps: seq<Path>) {
    forall i :: 0 <= i < |ps| ==> ps[i] != [] && AllEncodable(ps[i])
  }

  // ---- encoding, as JSON writes the list of paths ----

  /** What follows a leg's symbol: its closing quote is written before this, then `, 1]` or `, -1]`. */
  function DirectionJson(dir: int): string
    requires dir == 1 || dir == -1
  {
    if dir == 1 then ", 1]" else ", -1]"
  }

  function LegJson(l: Leg): string
    requires l.dir == 1 || l.dir == -1
  {
    "[\"" + l.symbol + "\"" + DirectionJson(l.dir)
  }

  function LegsJson(legs: seq<Leg>): string
    requires AllEncodable(legs)
  {
    if legs == [] then ""
    else if |legs| == 1 then LegJson(legs[0])
    else LegJson(legs[0]) + ", " + LegsJson(legs[1..])
  }

  function PathJson(p: Path): string
    requires AllEncodable(p)
  {
    "[" + LegsJson(p) + "]"
  }

  function PathsJson(ps: seq<Path>): string
    requires Dumpable(ps)
  {
    if ps == [] then ""
    else if |ps| == 1 then PathJson(ps[0])
    else PathJson(ps[0]) + ", " + PathsJson(ps[1..])
  }

  /** The JSON text of a list of paths. */
  function Dumps(ps: seq<Path>): string
    requires Dumpable(ps)
  {
    "[" + PathsJson(ps) + "]"
  }

  // ---- decoding; each parser returns what it read and the text after it ----

  /**
   * A character that stands for itself inside a JSON string: neither a
   * backslash, which starts an escape, nor a control character, which the
   * strict decoder refuses.
   */
  predicate RawChar(c: char) {
    c != '\\' && ' ' <= c
  }

  /**
   * How far the string scanner reads before it stops: the length of the
   * longest prefix of raw characters other than the quote.
   */
  function RawSpan(s: string): (i: nat)
    ensures i <= |s|
    ensures forall k :: 0 <= k < i ==> RawChar(s[k]) && s[k] != '"'
    ensures i < |s| ==> s[i] == '"' || !RawChar(s[i])
  {
    if s == [] || s[0] == '"' || !RawChar(s[0]) then 0
    else
      var i := RawSpan(s[1..]);
      assert forall k :: 0 < k <= i ==> s[k] == s[1..][k - 1];
      1 + i
  }

  /**
   * The characters up to the closing quote, all of them raw; the scanner
   * stopping at a backslash (an escape, not decoded) or a control character
   * fails.
   */
  function ParseSymbol(s: string): (r: Option<(string, string)>)
    ensures r.Some? ==> s == r.value.0 + "\"" + r.value.1
    ensures r.Some? ==> forall k :: 0 <= k < |r.value.0| ==> RawChar(r.value.0[k]) && r.value.0[k] != '"'
  {
    var i := RawSpan(s);
    if i == |s| || s[i] != '"' then None
    else
      assert s == s[..i] + "\"" + s[i + 1..];
      Some((s[..i], s[i + 1..]))
  }

  /** The direction of a leg and the leg's closing bracket. */
  function ParseDirection(s: string): (r: Option<(int, string)>)
    ensures r.Some? ==> |r.value.1| < |s|
  {
    if StartsWith(s, ", 1]") then Some((1, s[4..]))
    else if StartsWith(s, ", -1]") then Some((-1, s[5..]))
    else None
  }

  function ParseLeg(s: string): (r: Option<(Leg, string)>)
    ensures r.Some? ==> |r.value.1| < |s|
  {
    if !StartsWith(s, "[\"") then None
    else
      match ParseSymbol(s[2..])
      case None => None
      case Some((sym, rest)) =>
        match ParseDirection(rest)
        case None => None
        case Some((dir, after)) => Some((Leg(sym, dir), after))
  }

  /** Legs separated by `", "`, up to and including the path's closing bracket. */
  function ParseLegs(s: string): (r: Option<(seq<Leg>, string)>)
    ensures r.Some? ==> |r.value.1| < |s|
    decreases |s|
  {
    match ParseLeg(s)
    case None => None
    case Some((leg, rest)) =>
      if StartsWith(rest, ", ") then
        match ParseLegs(rest[2..])
        case None => None
        case Some((more, after)) => Some(([leg] + more, after))
      else if StartsWith(rest, "]") then Some(([leg], rest[1..]))
      else None
  }

  function ParsePath(s: string): (r: Option<(Path, string)>)
    ensures r.Some? ==> |r.value.1| < |s|
  {
    if StartsWith(s, "[") then ParseLegs(s[1..]) else None
  }

  /** Paths separated by `", "`, up to and including the list's closing bracket. */
  function ParsePaths(s: string): (r: Option<(seq<Path>, string)>)
    ensures r.Some? ==> |r.value.1| < |s|
    decreases |s|
  {
    match ParsePath(s)
    case None => None
    case Some((p, rest)) =>
      if StartsWith(rest, ", ") then
        match ParsePaths(rest[2..])
        case None => None
        case Some((more, after)) => Some(([p] + more, after))
      else if StartsWith(rest, "]") then Some(([p], rest[1..]))
      else None
  }

  /** Decoding the whole of `s` as a list of paths; trailing text is an error. */
  function Loads(s: string): Option<seq<Path>> {
    if !StartsWith(s, "[") then None
    else
      match ParsePaths(s[1..])
      case Some((ps, rest)) => if rest == "" then Some(ps) else None
      case None => None
  }

  /** `i` is the first position of `[[[` in `content`: where `find` stops. */
  predicate FirstOpening(content: string, i: nat) {
    i <= |content| && OccursAt(content, "[[[", i) && forall j :: 0 <= j < i ==> !OccursAt(content, "[[[", j)
  }

  /** `find` returns the first opening, and there is at most one first opening. */
  lemma FindOpening(content: string)
    ensures forall i: nat :: FirstOpening(content, i) <==> Find(content, "[[[", 0) == Some(i)
  {
    var f := Find(content, "[[[", 0);
    forall i: nat | FirstOpening(content, i)
      ensures f == Some(i)
    {
      assert f.Some?;
    }
  }

  /**
   * `load_paths_from_file` on the file's text: the paths decoded from the
   * first `[[[` on, or no paths when there is no `[[[` or the text from
   * there does not decode.
   */
  function LoadPaths(content: string): (r: seq<Path>)
    ensures (forall j :: 0 <= j <= |content| ==> !OccursAt(content, "[[[", j)) ==> r == []
    ensures r != [] ==> exists i: nat :: FirstOpening(content, i) && Loads(content[i..]) == Some(r)
    ensures forall i: nat :: FirstOpening(content, i) && Loads(content[i..]).Some? ==> r == Loads(content[i..]).value
  {
    FindOpening(content);
    match Find(content, "[[[", 0)
    case None => []
    case Some(i) =>
      match Loads(content[i..])
      case None => []
      case Some(ps) => ps
  }

  // ---- round trip ----

  /** `s` split after its first `|a|` characters, when it starts with `a`. */
  lemma Split(a: string, b: string)
    ensures StartsWith(a + b, a) && (a + b)[|a|..] == b
  {
    assert (a + b)[..|a|] == a;
  }

  lemma SymbolRoundTrip(sym: string, rest: string)
    requires PlainSymbol(sym)
    ensures ParseSymbol(sym + "\"" + rest) == Some((sym, rest))
  {
    var s := sym + "\"" + rest;
    assert forall k :: 0 <= k < |sym| ==> s[k] == sym[k];
    assert s[|sym|] == '"';
    assert RawSpan(s) == |sym|;
    assert s[..|sym|] == sym && s[|sym| + 1..] == rest;
  }

  /** A tab inside a symbol makes the file undecodable, as it does for the strict decoder: nothing loads. */
  lemma ControlCharRejected()
    ensures LoadPaths("[[[\"A\tB\", 1]]]") == []
  {
    var s := "[[[\"A\tB\", 1]]]";
    assert OccursAt(s, "[[[", 0);
    assert !RawChar(s[5]);
    assert ParseSymbol(s[4..]) == None;
    assert ParseLeg(s[2..]) == None;
  }

  lemma DirectionRoundTrip(dir: int, rest: string)
    requires dir == 1 || dir == -1
    ensures ParseDirection(DirectionJson(dir) + rest) == Some((dir, rest))
  {
    Split(DirectionJson(dir), rest);
    if dir == -1 {
      assert (DirectionJson(dir) + rest)[2] == '-';
    }
  }

  lemma LegRoundTrip(l: Leg, rest: string)
    requires Encodable(l)
    ensures ParseLeg(LegJson(l) + rest) == Some((l, rest))
  {
    var after := DirectionJson(l.dir) + rest;
    var s := LegJson(l) + rest;
    assert s == "[\"" + (l.symbol + "\"" + after);
    Split("[\"", l.symbol + "\"" + after);
    SymbolRoundTrip(l.symbol, after);
    DirectionRoundTrip(l.dir, rest);
  }

  /** The last leg of a path is followed by the path's closing bracket. */
  lemma {:induction false} ParseLegsLast(s: string, leg: Leg, rest: string)
    requires ParseLeg(s) == Some((leg, "]" + rest))
    ensures ParseLegs(s) == Some(([leg], rest))
  {
    NotSeparator(rest);
    Split("]", rest);
  }

  /** Any other leg is followed by the separator and the remaining legs. */
  lemma {:induction false} ParseLegsNext(s: string, leg: Leg, more: string)
    requires ParseLeg(s) == Some((leg, ", " + more))
    ensures ParseLegs(s) == (match ParseLegs(more)
                             case None => None
                             case Some((legs, after)) => Some(([leg] + legs, after)))
  {
    Split(", ", more);
  }

  lemma {:induction false} LegsRoundTripOne(legs: seq<Leg>, rest: string)
    requires |legs| == 1 && AllEncodable(legs)
    ensures ParseLegs(LegsJson(legs) + "]" + rest) == Some((legs, rest))
  {
    var s := LegsJson(legs) + "]" + rest;
    assert s == LegJson(legs[0]) + ("]" + rest);
    LegRoundTrip(legs[0], "]" + rest);
    ParseLegsLast(s, legs[0], rest);
    assert [legs[0]] == legs;
  }

  /** Regrouping an item, the separator, the remaining items, the closing bracket and what follows. */
  lemma SeparatedAssoc(y: string, x: string, rest: string)
    ensures y + ", " + x + "]" + rest == y + (", " + (x + "]" + rest))
  {
  }

  /** A leg, the separator and decodable legs decode as one longer sequence of legs. */
  lemma {:induction false} ParseLegsStep(s: string, head: Leg, more: string, tail: seq<Leg>, rest: string)
    requires Encodable(head)
    requires s == LegJson(head) + (", " + more)
    requires ParseLegs(more) == Some((tail, rest))
    ensures ParseLegs(s) == Some(([head] + tail, rest))
  {
    LegRoundTrip(head, ", " + more);
    ParseLegsNext(s, head, more);
  }

  /** The text of two or more legs, followed by `]` and `rest`: the first leg, the separator, then the others. */
  lemma {:induction false} LegsJsonCons(legs: seq<Leg>, rest: string)
    requires |legs| > 1 && AllEncodable(legs)
    ensures AllEncodable(legs[1..])
    ensures LegsJson(legs) + "]" + rest == LegJson(legs[0]) + (", " + (LegsJson(legs[1..]) + "]" + rest))
  {
    EncodableTail(legs);
    assert LegsJson(legs) == LegJson(legs[0]) + ", " + LegsJson(legs[1..]);
    SeparatedAssoc(LegJson(legs[0]), LegsJson(legs[1..]), rest);
  }

  lemma {:induction false} LegsRoundTripCons(legs: seq<Leg>, rest: string)
    requires |legs| > 1 && AllEncodable(legs)
    requires ParseLegs(LegsJson(legs[1..]) + "]" + rest) == Some((legs[1..], rest))
    ensures ParseLegs(LegsJson(legs) + "]" + rest) == Some((legs, rest))
  {
    LegsJsonCons(legs, rest);
    ParseLegsStep(LegsJson(legs) + "]" + rest, legs[0], LegsJson(legs[1..]) + "]" + rest, legs[1..], rest);
    assert [legs[0]] + legs[1..] == legs;
  }

  lemma {:induction false} LegsRoundTrip(legs: seq<Leg>, rest: string)
    requires legs != [] && AllEncodable(legs)
    ensures ParseLegs(LegsJson(legs) + "]" + rest) == Some((legs, rest))
    decreases |legs|
  {
    if |legs| == 1 {
      LegsRoundTripOne(legs, rest);
    } else {
      EncodableTail(legs);
      LegsRoundTrip(legs[1..], rest);
      LegsRoundTripCons(legs, rest);
    }
  }

  lemma PathRoundTrip(p: Path, rest: string)
    requires p != [] && AllEncodable(p)
    ensures ParsePath(PathJson(p) + rest) == Some((p, rest))
  {
    var inner := LegsJson(p) + "]" + rest;
    assert PathJson(p) + rest == "[" + inner;
    assert ParseLegs(inner) == Some((p, rest)) by {
      LegsRoundTrip(p, rest);
    }
    Split("[", inner);
  }

  /** The last path of the list is followed by the list's closing bracket. */
  lemma {:induction false} ParsePathsLast(s: string, p: Path, rest: string)
    requires ParsePath(s) == Some((p, "]" + rest))
    ensures ParsePaths(s) == Some(([p], rest))
  {
    NotSeparator(rest);
    Split("]", rest);
  }

  /** Any other path is followed by the separator and the remaining paths. */
  lemma {:induction false} ParsePathsNext(s: string, p: Path, more: string)
    requires ParsePath(s) == Some((p, ", " + more))
    ensures ParsePaths(s) == (match ParsePaths(more)
                              case None => None
                              case Some((ps, after)) => Some(([p] + ps, after)))
  {
    Split(", ", more);
  }

  lemma {:induction false} PathsRoundTripOne(ps: seq<Path>, rest: string)
    requires |ps| == 1 && Dumpable(ps)
    ensures ParsePaths(PathsJson(ps) + "]" + rest) == Some((ps, rest))
  {
    var s := PathsJson(ps) + "]" + rest;
    assert s == PathJson(ps[0]) + ("]" + rest);
    PathRoundTrip(ps[0], "]" + rest);
    ParsePathsLast(s, ps[0], rest);
    assert [ps[0]] == ps;
  }

  /** The text of two or more paths, followed by `]` and `rest`: the first path, the separator, then the others. */
  lemma {:induction false} PathsJsonCons(ps: seq<Path>, rest: string)
    requires |ps| > 1 && Dumpable(ps)
    ensures Dumpable(ps[1..])
    ensures PathsJson(ps) + "]" + rest == PathJson(ps[0]) + (", " + (PathsJson(ps[1..]) + "]" + rest))
  {
    assert PathsJson(ps) == PathJson(ps[0]) + ", " + PathsJson(ps[1..]);
    SeparatedAssoc(PathJson(ps[0]), PathsJson(ps[1..]), rest);
  }

  /** A path, the separator and a decodable list of paths decode as one longer list. */
  lemma {:induction false} ParsePathsStep(s: string, head: Path, more: string, tail: seq<Path>, rest: string)
    requires head != [] && AllEncodable(head)
    requires s == PathJson(head) + (", " + more)
    requires ParsePaths(more) == Some((tail, rest))
    ensures ParsePaths(s) == Some(([head] + tail, rest))
  {
    PathRoundTrip(head, ", " + more);
    ParsePathsNext(s, head, more);
  }

  lemma {:induction false} PathsRoundTripCons(ps: seq<Path>, rest: string)
    requires |ps| > 1 && Dumpable(ps)
    requires ParsePaths(PathsJson(ps[1..]) + "]" + rest) == Some((ps[1..], rest))
    ensures ParsePaths(PathsJson(ps) + "]" + rest) == Some((ps, rest))
  {
    PathsJsonCons(ps, rest);
    ParsePathsStep(PathsJson(ps) + "]" + rest, ps[0], PathsJson(ps[1..]) + "]" + rest, ps[1..], rest);
    assert [ps[0]] + ps[1..] == ps;
  }

  lemma {:induction false} PathsRoundTrip(ps: seq<Path>, rest: string)
    requires ps != [] && Dumpable(ps)
    ensures ParsePaths(PathsJson(ps) + "]" + rest) == Some((ps, rest))
    decreases |ps|
  {
    if |ps| == 1 {
      PathsRoundTripOne(ps, rest);
    } else {
      DumpableTail(ps);
      PathsRoundTrip(ps[1..], rest);
      PathsRoundTripCons(ps, rest);
    }
  }

  lemma BracketedAssoc(x: string)
    ensures "[" + (x + "]" + "") == "[" + x + "]"
  {
  }

  /** Decoding undoes encoding. */
  lemma LoadsDumps(ps: seq<Path>)
    requires ps != [] && Dumpable(ps)
    ensures Loads(Dumps(ps)) == Some(ps)
  {
    var body := PathsJson(ps) + "]" + "";
    PathsRoundTrip(ps, "");
    Split("[", body);
    assert Loads("[" + body) == Some(ps);
    BracketedAssoc(PathsJson(ps));
  }

  /** Text that closes a list does not continue it. */
  lemma NotSeparator(rest: string)
    ensures !StartsWith("]" + rest, ", ")
  {
    if 2 <= |"]" + rest| {
      assert ("]" + rest)[..2][0] == ']';
    }
  }

  /** The encoding of a non-empty list of non-empty paths starts with `[[[`. */
  lemma DumpsOpens(ps: seq<Path>)
    requires ps != [] && Dumpable(ps)
    ensures StartsWith(Dumps(ps), "[[[")
  {
    var paths := PathsJson(ps);
    assert |paths| >= 2 && paths[0] == '[' && paths[1] == '[' by {
      PathsJsonOpens(ps);
    }
    var d := Dumps(ps);
    assert d == "[" + paths + "]";
    assert d[0] == '[' && d[1] == '[' && d[2] == '[';
    assert d[..3] == "[[[";
  }

  /** The legs of a non-empty path are written starting with an opening bracket. */
  lemma {:induction false} LegsJsonOpens(p: Path)
    requires p != [] && AllEncodable(p)
    ensures |LegsJson(p)| >= 1 && LegsJson(p)[0] == '['
  {
    var first := LegJson(p[0]);
    assert first[0] == '[';
    if |p| > 1 {
      EncodableTail(p);
      assert LegsJson(p) == first + (", " + LegsJson(p[1..]));
    }
  }

  /** A non-empty path is written starting with two opening brackets. */
  lemma PathJsonOpens(p: Path)
    requires p != [] && AllEncodable(p)
    ensures |PathJson(p)| >= 2 && PathJson(p)[0] == '[' && PathJson(p)[1] == '['
  {
    LegsJsonOpens(p);
    assert PathJson(p) == "[" + LegsJson(p) + "]";
  }

  /** The legs after the first of an encodable sequence are encodable. */
  lemma EncodableTail(legs: seq<Leg>)
    requires legs != [] && AllEncodable(legs)
    ensures AllEncodable(legs[1..])
  {
    forall k | 0 <= k < |legs| - 1
      ensures Encodable(legs[1..][k])
    {
      assert legs[1..][k] == legs[k + 1];
    }
  }

  /** The paths after the first of a dumpable list are dumpable. */
  lemma DumpableTail(ps: seq<Path>)
    requires ps != [] && Dumpable(ps)
    ensures Dumpable(ps[1..])
  {
    forall k | 0 <= k < |ps| - 1
      ensures ps[1..][k] != [] && AllEncodable(ps[1..][k])
    {
      assert ps[1..][k] == ps[k + 1];
    }
  }

  /** A non-empty list of paths is written starting with two opening brackets. */
  lemma {:induction false} PathsJsonOpens(ps: seq<Path>)
    requires ps != [] && Dumpable(ps)
    ensures |PathsJson(ps)| >= 2 && PathsJson(ps)[0] == '[' && PathsJson(ps)[1] == '['
  {
    var path := PathJson(ps[0]);
    PathJsonOpens(ps[0]);
    if |ps| > 1 {
      DumpableTail(ps);
      var tail := PathsJson(ps[1..]);
      assert PathsJson(ps) == path + ", " + tail;
      assert (path + ", " + tail)[..2] == path[..2];
    }
  }


  /** After a header without `[`, the first `[[[` is where a text opening with it starts. */
  lemma {:induction false} FindAfterHeader(header: string, d: string)
    requires '[' !in header && StartsWith(d, "[[[")
    ensures Find(header + d, "[[[", 0) == Some(|header|)
    ensures (header + d)[|header|..] == d
  {
    var content := header + d;
    assert OccursAt(content, "[[[", |header|) by {
      assert content[|header|..|header| + 3] == d[..3];
    }
    forall j | 0 <= j < |header|
      ensures !OccursAt(content, "[[[", j)
    {
      assert content[j] == header[j] != '[';
      if j + 3 <= |content| {
        assert content[j..j + 3][0] == content[j];
      }
    }
  }

  /**
   * A saved file whose text before the JSON holds no `[` loads back the
   * paths that were saved.
   */
  lemma LoadSaved(header: string, ps: seq<Path>)
    requires '[' !in header && ps != [] && Dumpable(ps)
    ensures LoadPaths(header + Dumps(ps)) == ps
  {
    DumpsOpens(ps);
    FindAfterHeader(header, Dumps(ps));
    LoadsDumps(ps);
  }

  /** Example: the first discovered path of the test vector survives the file round trip. */
  lemma ExampleRoundTrip()
    ensures LoadPaths("# paths\n" + Dumps([[Leg("BTC_USDT", -1), Leg("ETH_BTC", -1), Leg("ETH_USDT", 1)]]))
         == [[Leg("BTC_USDT", -1), Leg("ETH_BTC", -1), Leg("ETH_USDT", 1)]]
  {
    var ps := [[Leg("BTC_USDT", -1), Leg("ETH_BTC", -1), Leg("ETH_USDT", 1)]];
    assert Dumpable(ps) by {
      assert AllEncodable(ps[0]) by {
        assert PlainSymbol("BTC_USDT") && PlainSymbol("ETH_BTC") && PlainSymbol("ETH_USDT");
      }
    }
    LoadSaved("# paths\n", ps);
  }
}
