/**
 * The decision logic of the stop geocoding step
 * (real_world_implementation/2_geocode_stops.py): the Qatar bounding-box
 * test, the normalisation of stop names into search text, the order in
 * which search strategies are tried, the per-name cache, and the choice
 * between a geocoded and a database coordinate. The geocoding service is a
 * function parameter: the text of a query to a location, or None when the
 * service finds nothing or fails.
 */
module GeocodeStops {
  import opened Common

  const MinLat: real := 24.0
  const MaxLat: real := 26.5
  const MinLon: real := 50.0
  const MaxLon: real := 52.0

  predicate InBox(lat: real, lon: real)
  {
    MinLat <= lat <= MaxLat && MinLon <= lon <= MaxLon
  }

  /**
   * is_in_qatar: a missing or zero coordinate fails, otherwise the inclusive
   * box decides. Zero lies outside both ranges, so for present values the
   * zero test never changes the answer: only the box counts.
   */
  function IsInQatar(lat: Option<real>, lon: Option<real>): (r: bool)
    ensures r <==> lat.Some? && lon.Some? && InBox(lat.value, lon.value)
  {
    if lat.None? || lat.value == 0.0 || lon.None? || lon.value == 0.0 then false
    else MinLat <= lat.value <= MaxLat && MinLon <= lon.value <= MaxLon
  }

  /** The corners of the box are inside it; the fallback school coordinate is too, and (0, 0) is not. */
  lemma IsInQatarExamples()
    ensures IsInQatar(Some(24.0), Some(50.0)) && IsInQatar(Some(26.5), Some(52.0))
    ensures IsInQatar(Some(25.2854), Some(51.5310))
    ensures !IsInQatar(Some(0.0), Some(0.0)) && !IsInQatar(None, Some(51.0))
  {
  }

  // ---------------------------------------------------------------------
  // Stop-name normalisation
  // ---------------------------------------------------------------------

  /** The direction and filler words removed from a name, in the order they are removed. */
  const NoiseWords: seq<string> :=
    ["SIDE", "OPP", "OPPOSITE", "NEAR", "BEHIND", "NEXT TO", "PICKUP", "DROP", "POINT", "AREA"]

  /** Whitespace as str.split() and the regex class \s see it, restricted to ASCII. */
  predicate IsSpace(c: char)
  {
    c == ' ' || c == '\t' || c == '\n' || c == '\r' || c == '\U{000b}' || c == '\U{000c}'
    || ('\U{001c}' <= c <= '\U{001f}')
  }

  /** The characters the regex [A-Z0-9] keeps. */
  predicate IsCleanChar(c: char)
  {
    ('A' <= c <= 'Z') || ('0' <= c <= '9')
  }

  function UpperChar(c: char): char
  {
    if 'a' <= c <= 'z' then (c as int - 32) as char else c
  }

  /** str.upper() on ASCII letters. */
  function Upper(s: string): (r: string)
    ensures |r| == |s|
  {
    seq(|s|, i requires 0 <= i < |s| => UpperChar(s[i]))
  }

  /**
   * str.replace(word, ""): drop every occurrence, scanning left to right
   * without overlap; an empty word leaves the text as it is.
   */
  function RemoveAll(s: string, word: string): (r: string)
    ensures |r| <= |s|
    decreases |s|
  {
    if word == [] || |s| < |word| then s
    else if s[..|word|] == word then RemoveAll(s[|word|..], word)
    else [s[0]] + RemoveAll(s[1..], word)
  }

  /** The noise words from position `from` on removed one after the other, each in a single pass. */
  function StripNoise(s: string, from: nat): string
    decreases |NoiseWords| - from
  {
    if from >= |NoiseWords| then s else StripNoise(RemoveAll(s, NoiseWords[from]), from + 1)
  }

  /** re.sub(r'[^A-Z0-9\s]', ' ', s). */
  function Sanitize(s: string): (r: string)
    ensures |r| == |s|
  {
    seq(|s|, i requires 0 <= i < |s| => if IsCleanChar(s[i]) || IsSpace(s[i]) then s[i] else ' ')
  }

  /** The length of the leading run of non-space characters. */
  function WordLength(s: string): (n: nat)
    ensures n <= |s|
    ensures forall i :: 0 <= i < n ==> !IsSpace(s[i])
    ensures n < |s| ==> IsSpace(s[n])
    ensures s != [] && !IsSpace(s[0]) ==> n >= 1
  {
    if s == [] || IsSpace(s[0]) then 0 else 1 + WordLength(s[1..])
  }

  /** str.split(): the maximal runs of non-space characters, in order. */
  function Words(s: string): seq<string>
    decreases |s|
  {
    if s == [] then []
    else if IsSpace(s[0]) then Words(s[1..])
    else
      var n := WordLength(s);
      [s[..n]] + Words(s[n..])
  }

  /** " ".join(words). */
  function JoinWords(ws: seq<string>): string
  {
    if ws == [] then "" else if |ws| == 1 then ws[0] else ws[0] + " " + JoinWords(ws[1..])
  }

  /** clean_stop_name as one expression: "" for a non-string, otherwise the four steps in order. */
  function CleanName(name: Option<string>): string
  {
    if name.None? then ""
    else JoinWords(Words(Sanitize(StripNoise(Upper(name.value), 0))))
  }

  /** Search text: only A-Z, 0-9 and single spaces, no space at either end. */
  predicate CleanForm(s: string)
  {
    && (forall i :: 0 <= i < |s| ==> IsCleanChar(s[i]) || s[i] == ' ')
    && (|s| > 0 ==> s[0] != ' ' && s[|s| - 1] != ' ')
    && (forall i :: 0 <= i < |s| - 1 && s[i] == ' ' ==> s[i + 1] != ' ')
  }

  predicate AllClean(w: string)
  {
    forall i :: 0 <= i < |w| ==> IsCleanChar(w[i])
  }

  predicate CleanOrSpace(s: string)
  {
    forall i :: 0 <= i < |s| ==> IsCleanChar(s[i]) || IsSpace(s[i])
  }

  /** Splitting text of clean characters and spaces gives non-empty words of clean characters. */
  lemma {:induction false} WordsAreClean(s: string)
    requires CleanOrSpace(s)
    ensures forall k :: 0 <= k < |Words(s)| ==> |Words(s)[k]| > 0 && AllClean(Words(s)[k])
    decreases |s|
  {
    if s != [] {
      if IsSpace(s[0]) {
        WordsAreClean(s[1..]);
      } else {
        var n := WordLength(s);
        WordsAreClean(s[n..]);
        var ws := [s[..n]] + Words(s[n..]);
        forall k | 0 <= k < |ws| ensures |ws[k]| > 0 && AllClean(ws[k]) {
          if k > 0 { assert ws[k] == Words(s[n..])[k - 1]; }
        }
      }
    }
  }

  /** Joining non-empty words of clean characters with single spaces gives clean search text. */
  lemma {:induction false} JoinIsClean(ws: seq<string>)
    requires forall k :: 0 <= k < |ws| ==> |ws[k]| > 0 && AllClean(ws[k])
    ensures CleanForm(JoinWords(ws))
    ensures |ws| > 0 ==> |JoinWords(ws)| > 0
  {
    if |ws| > 1 {
      JoinIsClean(ws[1..]);
      var w, rest := ws[0], JoinWords(ws[1..]);
      var t := w + " " + rest;
      assert AllClean(w);
      forall i | 0 <= i < |t| - 1 && t[i] == ' ' ensures t[i + 1] != ' ' {
        if i > |w| {
          assert t[i] == rest[i - |w| - 1];
          assert t[i + 1] == rest[i - |w|];
        } else {
          assert i == |w|;
          assert t[i + 1] == rest[0];
        }
      }
      forall i | 0 <= i < |t| ensures IsCleanChar(t[i]) || t[i] == ' ' {
        if i > |w| { assert t[i] == rest[i - |w| - 1]; }
      }
      assert t[|t| - 1] == rest[|rest| - 1];
    }
  }

  /** Whatever the input, the cleaned name is clean search text. */
  lemma CleanNameForm(name: Option<string>)
    ensures CleanForm(CleanName(name))
  {
    if name.Some? {
      var s := Sanitize(StripNoise(Upper(name.value), 0));
      WordsAreClean(s);
      JoinIsClean(Words(s));
    }
  }

  /**
   * clean_stop_name: a non-string gives ""; a string is uppercased, each
   * noise word is removed in list order, every character outside
   * [A-Z0-9\s] becomes a space, and the words are joined by single spaces.
   */
  method CleanStopName(name: Option<string>) returns (r: string)
    ensures r == CleanName(name)
    ensures CleanForm(r)
    ensures name.None? ==> r == ""
  {
    CleanNameForm(name);
    if name.None? {
      return "";
    }
    var s := Upper(name.value);
    var k := 0;
    while k < |NoiseWords|
      invariant 0 <= k <= |NoiseWords|
      invariant StripNoise(s, k) == StripNoise(Upper(name.value), 0)
    {
      s := RemoveAll(s, NoiseWords[k]);
      k := k + 1;
    }
    r := JoinWords(Words(Sanitize(s)));
  }

  // The fixed point: search text that is already clean and holds no noise word.

  /** Whether the word appears somewhere in the text as a contiguous run. */
  predicate Occurs(s: string, w: string)
    decreases |s|
  {
    |s| >= |w| && (s[..|w|] == w || (|s| > 0 && Occurs(s[1..], w)))
  }

  /** A word with a character the text lacks does not occur in it. */
  lemma {:induction false} AbsentByChar(s: string, w: string, j: nat)
    requires j < |w| && w[j] !in s
    ensures !Occurs(s, w)
    decreases |s|
  {
    if |s| >= |w| {
      assert s[..|w|][j] == s[j];
      if |s| > 0 {
        assert w[j] !in s[1..] by {
          assert forall i :: 0 <= i < |s[1..]| ==> s[1..][i] == s[i + 1];
        }
        AbsentByChar(s[1..], w, j);
      }
    }
  }

  lemma {:induction false} RemoveAbsent(s: string, w: string)
    requires !Occurs(s, w)
    ensures RemoveAll(s, w) == s
    decreases |s|
  {
    if |s| >= |w| {
      RemoveAbsent(s[1..], w);
    }
  }

  lemma {:induction false} StripAbsent(s: string, from: nat)
    requires forall k :: from <= k < |NoiseWords| ==> !Occurs(s, NoiseWords[k])
    ensures StripNoise(s, from) == s
    decreases |NoiseWords| - from
  {
    if from < |NoiseWords| {
      RemoveAbsent(s, NoiseWords[from]);
      StripAbsent(s, from + 1);
    }
  }

  /** What follows a space inside clean search text is clean search text. */
  lemma CleanAfterSpace(s: string, m: nat)
    requires CleanForm(s) && 0 < m < |s| && s[m - 1] == ' '
    ensures CleanForm(s[m..])
  {
    var t := s[m..];
    forall i | 0 <= i < |t| - 1 && t[i] == ' ' ensures t[i + 1] != ' ' {
      assert t[i] == s[m + i] && t[i + 1] == s[m + i + 1];
    }
  }

  lemma {:induction false} JoinWordsOfClean(s: string)
    requires CleanForm(s)
    ensures JoinWords(Words(s)) == s
    ensures s != [] ==> |Words(s)| > 0
    decreases |s|
  {
    if s != [] {
      assert !IsSpace(s[0]);
      var n := WordLength(s);
      var word := s[..n];
      if n < |s| {
        assert s[n] == ' ';
        var t := s[n + 1..];
        CleanAfterSpace(s, n + 1);
        JoinWordsOfClean(t);
        assert s[n..][1..] == t;
        var ws := [word] + Words(t);
        assert Words(s) == ws;
        assert ws[1..] == Words(t);
        assert s == word + " " + t;
      } else {
        assert word == s;
        assert Words(s) == [word] + Words([]);
      }
    }
  }

  lemma OsiteHoldsNoLaterNoise()
    ensures forall k :: 2 <= k < |NoiseWords| ==> !Occurs("OSITE", NoiseWords[k])
  {
    AbsentByChar("OSITE", "OPPOSITE", 1);
    AbsentByChar("OSITE", "NEAR", 0);
    AbsentByChar("OSITE", "BEHIND", 0);
    AbsentByChar("OSITE", "NEXT TO", 0);
    AbsentByChar("OSITE", "PICKUP", 0);
    AbsentByChar("OSITE", "DROP", 0);
    AbsentByChar("OSITE", "POINT", 0);
    AbsentByChar("OSITE", "AREA", 0);
  }

  lemma SideAbsent(s: string)
    requires s == "OPPOSITE"
    ensures RemoveAll(s, NoiseWords[0]) == s
  {
    assert NoiseWords[0] == "SIDE";
    AbsentByChar(s, "SIDE", 2);
    RemoveAbsent(s, "SIDE");
  }

  lemma OppRemoved(s: string, t: string)
    requires s == "OPPOSITE" && t == "OSITE"
    ensures RemoveAll(s, NoiseWords[1]) == t
  {
    var w := NoiseWords[1];
    assert w == "OPP";
    assert s[..|w|] == w && s[|w|..] == t;
    AbsentByChar(t, w, 1);
    RemoveAbsent(t, w);
  }

  lemma OppositeStripped(s: string)
    requires s == "OPPOSITE"
    ensures StripNoise(s, 0) == "OSITE"
  {
    SideAbsent(s);
    OppRemoved(s, "OSITE");
    OsiteHoldsNoLaterNoise();
    StripAbsent("OSITE", 2);
  }

  lemma OsiteKept(t: string)
    requires t == "OSITE"
    ensures JoinWords(Words(Sanitize(t))) == t
  {
    assert Sanitize(t) == t;
    JoinWordsOfClean(t);
  }

  /** "OPP" is removed before "OPPOSITE" is looked for, so "OPPOSITE" becomes "OSITE". */
  lemma NoiseOrderExample(name: string)
    requires name == "OPPOSITE"
    ensures CleanName(Some(name)) == "OSITE"
  {
    assert Upper(name) == name;
    OppositeStripped(name);
    OsiteKept(StripNoise(name, 0));
  }

  /** Clean search text without noise words is left as it is: a second cleaning changes nothing. */
  lemma CleanNameFixedPoint(s: string)
    requires CleanForm(s)
    requires forall k :: 0 <= k < |NoiseWords| ==> !Occurs(s, NoiseWords[k])
    ensures CleanName(Some(s)) == s
  {
    assert Upper(s) == s;
    StripAbsent(s, 0);
    assert Sanitize(s) == s;
    JoinWordsOfClean(s);
  }

  // ---------------------------------------------------------------------
  // Search strategies
  // ---------------------------------------------------------------------

  /** The three queries, in the order they are tried. */
  function Queries(stopName: string): seq<string>
  {
    [stopName + ", Qatar", stopName + ", Doha, Qatar", CleanName(Some(stopName)) + ", Qatar"]
  }

  /** A service answer that smart_geocode accepts: a location inside the box. */
  predicate Hit(r: Option<Coord>)
  {
    r.Some? && IsInQatar(Some(r.value.0), Some(r.value.1))
  }

  /** The location of the first query the service answers inside the box, or (0, 0). */
  function FirstHit(geocoder: string -> Option<Coord>, queries: seq<string>): Coord
  {
    if queries == [] then (0.0, 0.0)
    else if Hit(geocoder(queries[0])) then geocoder(queries[0]).value
    else FirstHit(geocoder, queries[1..])
  }

  /**
   * FirstHit is (0, 0) exactly when no query hits; otherwise it is the
   * answer to some query k that hits, no earlier query hits, and it lies in
   * the box.
   */
  lemma {:induction false} FirstHitSpec(geocoder: string -> Option<Coord>, queries: seq<string>)
    ensures var r := FirstHit(geocoder, queries);
      && (r == (0.0, 0.0) <==> forall k :: 0 <= k < |queries| ==> !Hit(geocoder(queries[k])))
      && (r != (0.0, 0.0) ==>
            && InBox(r.0, r.1)
            && exists k :: 0 <= k < |queries| && geocoder(queries[k]) == Some(r)
                 && forall j :: 0 <= j < k ==> !Hit(geocoder(queries[j])))
  {
    if queries != [] {
      FirstHitSpec(geocoder, queries[1..]);
      var r := FirstHit(geocoder, queries);
      if Hit(geocoder(queries[0])) {
        assert r != (0.0, 0.0);
        assert geocoder(queries[0]) == Some(r);
      } else {
        forall k | 1 <= k < |queries| ensures queries[k] == queries[1..][k - 1] { }
        if r != (0.0, 0.0) {
          var k :| 0 <= k < |queries[1..]| && geocoder(queries[1..][k]) == Some(r)
                   && forall j :: 0 <= j < k ==> !Hit(geocoder(queries[1..][j]));
          assert geocoder(queries[k + 1]) == Some(r);
          forall j | 0 <= j < k + 1 ensures !Hit(geocoder(queries[j])) {
            if j > 0 { assert queries[j] == queries[1..][j - 1]; }
          }
        }
      }
    }
  }

  /**
   * smart_geocode: try the three queries in order and return the first
   * location the service places in the box, or (0, 0) when none qualifies.
   */
  method SmartGeocode(geocoder: string -> Option<Coord>, stopName: string) returns (lat: real, lon: real)
    ensures (lat, lon) == FirstHit(geocoder, Queries(stopName))
    ensures (lat, lon) == (0.0, 0.0) || InBox(lat, lon)
  {
    var strategies := Queries(stopName);
    var k := 0;
    while k < |strategies|
      invariant 0 <= k <= |strategies|
      invariant FirstHit(geocoder, strategies[k..]) == FirstHit(geocoder, strategies)
    {
      var location := geocoder(strategies[k]);
      assert strategies[k..][1..] == strategies[k + 1..];
      if location.Some? && IsInQatar(Some(location.value.0), Some(location.value.1)) {
        FirstHitSpec(geocoder, strategies);
        return location.value.0, location.value.1;
      }
      k := k + 1;
    }
    FirstHitSpec(geocoder, strategies);
    return 0.0, 0.0;
  }

  /**
   * The loop of run_geocoding: every name that is not NaN is searched and
   * its result cached under the name, found or not.
   */
  method GeocodeAll(uniqueNames: seq<Option<string>>, geocoder: string -> Option<Coord>)
    returns (cache: map<string, Coord>)
    ensures forall n :: n in cache <==> Some(n) in uniqueNames
    ensures forall n :: n in cache ==> cache[n] == FirstHit(geocoder, Queries(n))
  {
    cache := map[];
    var i := 0;
    while i < |uniqueNames|
      invariant 0 <= i <= |uniqueNames|
      invariant forall n :: n in cache <==> Some(n) in uniqueNames[..i]
      invariant forall n :: n in cache ==> cache[n] == FirstHit(geocoder, Queries(n))
    {
      assert uniqueNames[..i + 1] == uniqueNames[..i] + [uniqueNames[i]];
      if uniqueNames[i].Some? {
        var name := uniqueNames[i].value;
        var lat, lon := SmartGeocode(geocoder, name);
        cache := cache[name := (lat, lon)];
      }
      i := i + 1;
    }
    assert uniqueNames[..i] == uniqueNames;
  }

  // ---------------------------------------------------------------------
  // Final coordinate
  // ---------------------------------------------------------------------

  /** geocode_cache.get(name, (0, 0)); a NaN name is never in the cache. */
  function CachedCoord(cache: map<string, Coord>, name: Option<string>): Coord
  {
    if name.Some? && name.value in cache then cache[name.value] else (0.0, 0.0)
  }

  /** final_lat / final_lon: each geocoded value when nonzero, otherwise the database value. */
  function FinalCoordinate(cache: map<string, Coord>, name: Option<string>, dbLat: Option<real>, dbLon: Option<real>)
    : (Option<real>, Option<real>)
  {
    var g := CachedCoord(cache, name);
    (if g.0 != 0.0 then Some(g.0) else dbLat, if g.1 != 0.0 then Some(g.1) else dbLon)
  }

  /**
   * With a cache filled by the search, latitude and longitude come from the
   * same source: both from a geocoded location inside the box, or both from
   * the database row. A name missing from the cache always takes the
   * database values.
   */
  lemma FinalCoordinateOneSource(
    cache: map<string, Coord>, geocoder: string -> Option<Coord>,
    name: Option<string>, dbLat: Option<real>, dbLon: Option<real>)
    requires forall n :: n in cache ==> cache[n] == FirstHit(geocoder, Queries(n))
    ensures var r := FinalCoordinate(cache, name, dbLat, dbLon);
      || r == (dbLat, dbLon)
      || (r.0.Some? && r.1.Some? && InBox(r.0.value, r.1.value) && r == (Some(CachedCoord(cache, name).0), Some(CachedCoord(cache, name).1)))
    ensures (name.None? || name.value !in cache) ==> FinalCoordinate(cache, name, dbLat, dbLon) == (dbLat, dbLon)
  {
    if name.Some? && name.value in cache {
      FirstHitSpec(geocoder, Queries(name.value));
    }
  }
}
