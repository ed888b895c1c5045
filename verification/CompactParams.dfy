/** The query parameters of the compact endpoint and the cache key made from them
    (handle_compact_departures.go). */
module CompactParams {
  import opened Wire
  import opened Digits

  const MAX_STOPS := 4
  const MAX_ID_LEN := 12
  const KEY_PREFIX := "/compact/departures?stops="

  // -- splitting and joining --

  /** `strings.Split(s, ",")`. */
  function Split(s: string): (segs: seq<string>)
    ensures |segs| > 0
  {
    if s == "" then [""]
    else
      var rest := Split(s[1..]);
      if s[0] == ',' then [""] + rest else [[s[0]] + rest[0]] + rest[1..]
  }

  /** `strings.Join(segs, ",")`. */
  function Join(segs: seq<string>): string {
    if segs == [] then ""
    else if |segs| == 1 then segs[0]
    else segs[0] + ("," + Join(segs[1..]))
  }

  predicate Free(s: string, c: char) {
    forall i :: 0 <= i < |s| ==> s[i] != c
  }

  lemma {:induction false} SplitBefore(seg: string, rest: string)
    requires Free(seg, ',')
    ensures Split(seg + ("," + rest)) == [seg] + Split(rest)
    ensures Split(seg) == [seg]
  {
    if seg == "" {
      assert "" + ("," + rest) == "," + rest;
      assert ("," + rest)[1..] == rest;
    } else {
      SplitBefore(seg[1..], rest);
      assert (seg + ("," + rest))[1..] == seg[1..] + ("," + rest);
      assert [seg[0]] + seg[1..] == seg;
    }
  }

  /** Splitting a join gives the segments back. */
  lemma {:induction false} SplitOfJoin(segs: seq<string>)
    requires segs != [] && forall seg :: seg in segs ==> Free(seg, ',')
    ensures Split(Join(segs)) == segs
  {
    hide Split;
    if |segs| == 1 {
      SplitBefore(segs[0], "");
    } else {
      SplitOfJoin(segs[1..]);
      SplitBefore(segs[0], Join(segs[1..]));
      assert Join(segs) == segs[0] + ("," + Join(segs[1..]));
      assert segs == [segs[0]] + segs[1..];
    }
  }

  function NonEmpty(segs: seq<string>): seq<string> {
    if segs == [] then []
    else
      var rest, seg := NonEmpty(segs[..|segs| - 1]), segs[|segs| - 1];
      if seg == "" then rest else rest + [seg]
  }

  lemma {:induction false} NonEmptyKeepsAll(segs: seq<string>)
    requires forall i :: 0 <= i < |segs| ==> segs[i] != ""
    ensures NonEmpty(segs) == segs
  {
    if segs == [] {
    } else {
      var n := |segs| - 1;
      NonEmptyKeepsAll(segs[..n]);
      assert segs == segs[..n] + [segs[n]];
    }
  }

  // -- stops --

  predicate StopId(s: string) {
    1 <= |s| <= MAX_ID_LEN && AllDigits(s)
  }

  predicate ValidStops(ids: seq<string>) {
    1 <= |ids| <= MAX_STOPS && forall id :: id in ids ==> StopId(id)
  }

  /** One to four IDs once the empty segments are gone, or a bad request. */
  function ParseStops(raw: string): Option<seq<string>> {
    var ids := NonEmpty(Split(raw));
    if ValidStops(ids) then Some(ids) else None
  }

  /** `isCompactStopID`. */
  method IsCompactStopID(s: string) returns (ok: bool)
    ensures ok <==> StopId(s)
    ensures ok <==> 1 <= |s| <= 12 && forall i :: 0 <= i < |s| ==> '0' <= s[i] <= '9'
  {
    if |s| == 0 || |s| > MAX_ID_LEN {
      return false;
    }
    for i := 0 to |s|
      invariant AllDigits(s[..i])
    {
      if s[i] < '0' || s[i] > '9' {
        return false;
      }
    }
    assert s[..|s|] == s;
    return true;
  }

  /** `parseCompactStops`. */
  method ParseCompactStops(raw: string) returns (r: Option<seq<string>>)
    ensures r == ParseStops(raw)
  {
    if raw == "" {
      assert NonEmpty([""]) == [] by { assert [""][..0] == []; }
      return None;
    }
    var stops, segs := [], Split(raw);
    for i := 0 to |segs|
      invariant stops == NonEmpty(segs[..i])
      invariant forall id :: id in stops ==> StopId(id)
    {
      assert segs[..i + 1][..i] == segs[..i];
      var seg := segs[i];
      if seg == "" {
        continue;
      }
      var ok := IsCompactStopID(seg);
      if !ok {
        NonEmptyHas(segs, i);
        return None;
      }
      stops := stops + [seg];
    }
    assert segs[..|segs|] == segs;
    if |stops| == 0 || |stops| > MAX_STOPS {
      return None;
    }
    return Some(stops);
  }

  lemma {:induction false} NonEmptyHas(segs: seq<string>, i: nat)
    requires i < |segs| && segs[i] != ""
    ensures segs[i] in NonEmpty(segs)
  {
    if i == |segs| - 1 {
    } else {
      NonEmptyHas(segs[..|segs| - 1], i);
    }
  }

  /** What is accepted: one to four non-empty segments, each of one to twelve characters from 0 to 9. */
  lemma AcceptedExactly(raw: string)
    ensures ParseStops(raw).Some? <==>
              && 1 <= |NonEmpty(Split(raw))| <= 4
              && forall id :: id in NonEmpty(Split(raw)) ==> 1 <= |id| <= 12 && forall i :: 0 <= i < |id| ==> '0' <= id[i] <= '9'
    ensures ParseStops(raw).Some? ==> ParseStops(raw).value == NonEmpty(Split(raw))
  {
    hide Split, NonEmpty;
  }

  /** Canonical form: a valid list survives joining and parsing. */
  lemma StopsRoundTrip(ids: seq<string>)
    requires ValidStops(ids)
    ensures ParseStops(Join(ids)) == Some(ids)
  {
    hide Split, Join, NonEmpty;
    forall id | id in ids
      ensures Free(id, ',')
    {
      DigitsFree(id);
    }
    forall i | 0 <= i < |ids|
      ensures ids[i] != ""
    {
      assert StopId(ids[i]);
    }
    SplitOfJoin(ids);
    NonEmptyKeepsAll(ids);
  }

  /** Whatever is accepted is valid, and its canonical form parses to the same stops. */
  lemma StopsFixedPoint(raw: string)
    requires ParseStops(raw).Some?
    ensures ValidStops(ParseStops(raw).value)
    ensures ParseStops(Join(ParseStops(raw).value)) == ParseStops(raw)
  {
    StopsRoundTrip(ParseStops(raw).value);
  }

  lemma {:induction false} NonEmptyAppend(a: seq<string>, b: seq<string>)
    ensures NonEmpty(a + b) == NonEmpty(a) + NonEmpty(b)
    decreases |b|
  {
    if b == [] {
      assert a + b == a;
    } else {
      var n := |b| - 1;
      assert (a + b)[..|a| + n] == a + b[..n];
      NonEmptyAppend(a, b[..n]);
    }
  }

  lemma {:induction false} SplitAtComma(a: string, b: string)
    ensures Split(a + ("," + b)) == Split(a) + Split(b)
  {
    if a == "" {
      SplitBefore("", b);
    } else {
      hide Split;
      var rest := a[1..] + ("," + b);
      SplitAtComma(a[1..], b);
      SplitHead(a[0], rest);
      SplitHead(a[0], a[1..]);
      assert [a[0]] + a[1..] == a;
      assert [a[0]] + rest == a + ("," + b);
      HeadOfAppend(a[0], Split(a[1..]), Split(b));
      assert Split(rest) == Split(a[1..]) + Split(b);
    }
  }

  /** Extending the first segment only touches the first of two joined lists. */
  lemma HeadOfAppend(c: char, h: seq<string>, t: seq<string>)
    requires h != []
    ensures [[c] + (h + t)[0]] + (h + t)[1..] == ([[c] + h[0]] + h[1..]) + t
    ensures [""] + (h + t) == ([""] + h) + t
  {
  }

  /** What one more character in front does to the segments. */
  lemma SplitHead(c: char, s: string)
    ensures var segs := Split(s);
            Split([c] + s) == if c == ',' then [""] + segs else [[c] + segs[0]] + segs[1..]
  {
    assert ([c] + s)[1..] == s;
  }

  lemma {:induction false} SplitIsFree(s: string)
    ensures forall seg :: seg in Split(s) ==> Free(seg, ',')
  {
    if s == "" {
    } else {
      var rest := Split(s[1..]);
      SplitIsFree(s[1..]);
      assert Free(rest[0], ',') && forall seg :: seg in rest[1..] ==> seg in rest;
      assert s[0] != ',' ==> Free([s[0]] + rest[0], ',');
    }
  }

  lemma {:induction false} NonEmptyMembers(segs: seq<string>)
    ensures forall seg :: seg in NonEmpty(segs) ==> seg in segs && seg != ""
  {
    if segs == [] {
    } else {
      NonEmptyMembers(segs[..|segs| - 1]);
      assert segs == segs[..|segs| - 1] + [segs[|segs| - 1]];
    }
  }

  /** Only the non-empty segments count: every string, accepted or not, parses as their join. */
  lemma OnlySegmentsCount(raw: string)
    ensures ParseStops(raw) == ParseStops(Join(NonEmpty(Split(raw))))
  {
    hide Split, NonEmpty, Join;
    var segs := NonEmpty(Split(raw));
    SplitIsFree(raw);
    NonEmptyMembers(Split(raw));
    if segs == [] {
      NothingParses();
    } else {
      SplitOfJoin(segs);
      assert forall i :: 0 <= i < |segs| ==> segs[i] in segs;
      NonEmptyKeepsAll(segs);
    }
  }

  lemma NothingParses()
    ensures ParseStops(Join([])).None?
  {
    assert Join([]) == "" && Split("") == [""];
    assert [""][..0] == [] && NonEmpty([""]) == [];
  }

  /** So a comma more changes nothing: in front, behind, or beside another. */
  lemma ExtraCommaIgnored(a: string, b: string)
    ensures ParseStops("," + b) == ParseStops(b)
    ensures ParseStops(a + ",") == ParseStops(a)
    ensures ParseStops(a + ("," + ("," + b))) == ParseStops(a + ("," + b))
  {
    EmptyFront(b);
    EmptyBack(a);
    SplitAtComma(a, "," + b);
    SplitAtComma(a, b);
    NonEmptyAppend(Split(a), Split("," + b));
    NonEmptyAppend(Split(a), Split(b));
  }

  lemma EmptyFront(b: string)
    ensures NonEmpty(Split("," + b)) == NonEmpty(Split(b))
  {
    SplitAtComma("", b);
    assert "" + ("," + b) == "," + b;
    assert [""][..0] == [] && NonEmpty([""]) == [];
    NonEmptyAppend([""], Split(b));
    assert [] + NonEmpty(Split(b)) == NonEmpty(Split(b));
  }

  lemma EmptyBack(a: string)
    ensures NonEmpty(Split(a + ",")) == NonEmpty(Split(a))
  {
    SplitAtComma(a, "");
    assert a + ("," + "") == a + ",";
  }

  // -- duration and limit --

  /** `parseCompactClamped`. */
  function Clamped(raw: string, default: int, min: int, max: int): int {
    if raw == "" then default
    else
      var v := Atoi(raw);
      if !v.ok then default
      else if v.value < min then min
      else if v.value > max then max
      else v.value
  }

  /** Always in range, and any value in range can be asked for by printing it. */
  lemma ClampedInRange(raw: string, default: int, min: int, max: int, v: int)
    requires min <= default <= max && min <= v <= max && -MAX_INT64 <= min && max <= MAX_INT64
    ensures min <= Clamped(raw, default, min, max) <= max
    ensures Clamped(Itoa(v), default, min, max) == v
  {
    hide Atoi;
    AtoiOfItoa(v);
    ItoaNotEmpty(v);
  }

  /** A value below the range gives its lower end, one above its upper end; what cannot be read as an
      integer, or not as a 64-bit one, gives the default. */
  lemma ClampedExactly(raw: string, default: int, min: int, max: int)
    requires min <= max
    ensures Clamped(raw, default, min, max)
         == if !Readable(raw) || IntegerOf(raw) < -0x8000_0000_0000_0000 || IntegerOf(raw) > 0x7FFF_FFFF_FFFF_FFFF then default
            else if IntegerOf(raw) <= min then min
            else if IntegerOf(raw) >= max then max
            else IntegerOf(raw)
  {
    hide Atoi, IntegerOf;
    AtoiExactly(raw);
  }

  /** The two parameters: 10 to 120 minutes, 30 if not given; 1 to 10 departures, 6 if not given. */
  lemma DurationAndLimit(raw: string)
    ensures !Readable(raw) ==> Duration(raw) == 30 && Limit(raw) == 6
    ensures Readable(raw) && -0x8000_0000_0000_0000 <= IntegerOf(raw) <= 0x7FFF_FFFF_FFFF_FFFF ==>
              var v := IntegerOf(raw);
              && Duration(raw) == (if v < 10 then 10 else if v > 120 then 120 else v)
              && Limit(raw) == (if v < 1 then 1 else if v > 10 then 10 else v)
  {
    hide Readable, IntegerOf, Clamped;
    ClampedExactly(raw, 30, 10, 120);
    ClampedExactly(raw, 6, 1, 10);
  }

  lemma ItoaNotEmpty(v: int)
    ensures Itoa(v) != ""
  {
    NumberOfDecimal(if v < 0 then -v else v);
  }

  function Duration(raw: string): int {
    Clamped(raw, 30, 10, 120)
  }

  function Limit(raw: string): (limit: int)
    ensures 1 <= limit <= 10
  {
    Clamped(raw, 6, 1, 10)
  }

  // -- the cache key --

  /** `compactCacheKey`. */
  function CacheKey(stops: seq<string>, duration: int, limit: int): string {
    KEY_PREFIX + (Join(stops) + ("&" + (("duration=" + Itoa(duration)) + ("&" + ("limit=" + Itoa(limit))))))
  }

  function Before(s: string, c: char): string {
    if s == "" || s[0] == c then "" else [s[0]] + Before(s[1..], c)
  }

  function Behind(s: string, c: char): string {
    if s == "" then "" else if s[0] == c then s[1..] else Behind(s[1..], c)
  }

  lemma {:induction false} CutAt(a: string, c: char, b: string)
    requires Free(a, c)
    ensures Before(a + ([c] + b), c) == a && Behind(a + ([c] + b), c) == b
  {
    var s := a + ([c] + b);
    if a == "" {
      assert s == [c] + b && s[1..] == b;
    } else {
      assert s[1..] == a[1..] + ([c] + b);
      CutAt(a[1..], c, b);
      assert [a[0]] + a[1..] == a;
    }
  }

  /** Reading a key back into stops, duration and limit. */
  function ReadKey(key: string): (seq<string>, int, int)
    requires |key| >= |KEY_PREFIX|
  {
    var body := key[|KEY_PREFIX|..];
    var fields := Behind(body, '&');
    var duration, limit := Before(fields, '&'), Behind(fields, '&');
    (Split(Before(body, '&')),
     if |duration| >= 9 then Atoi(duration[9..]).value else 0,
     if |limit| >= 6 then Atoi(limit[6..]).value else 0)
  }

  predicate InInt64(n: int) {
    -MAX_INT64 - 1 <= n <= MAX_INT64
  }

  lemma DigitsFree(s: string)
    requires AllDigits(s)
    ensures Free(s, ',') && Free(s, '&')
  {
  }

  lemma {:induction false} JoinFree(ids: seq<string>)
    requires forall id :: id in ids ==> AllDigits(id)
    ensures Free(Join(ids), '&')
  {
    if ids == [] {
    } else {
      DigitsFree(ids[0]);
      JoinFree(ids[1..]);
      if |ids| > 1 {
        var tail := "," + Join(ids[1..]);
        assert Free(tail, '&');
        assert Free(ids[0] + tail, '&');
      }
    }
  }

  lemma ItoaFree(n: int)
    ensures Free(Itoa(n), '&')
  {
    NumberOfDecimal(if n < 0 then -n else n);
  }

  /** The key determines what it was made from. */
  lemma KeyReadsBack(stops: seq<string>, duration: int, limit: int)
    requires stops != [] && forall id :: id in stops ==> AllDigits(id)
    requires InInt64(duration) && InInt64(limit)
    ensures ReadKey(CacheKey(stops, duration, limit)) == (stops, duration, limit)
  {
    hide Itoa, Atoi, Before, Behind, Split, Join;
    var d, l := "duration=" + Itoa(duration), "limit=" + Itoa(limit);
    var key := CacheKey(stops, duration, limit);
    assert key[|KEY_PREFIX|..] == Join(stops) + ("&" + (d + ("&" + l)));
    JoinFree(stops);
    CutAt(Join(stops), '&', d + ("&" + l));
    ItoaFree(duration);
    CutAt(d, '&', l);
    assert d[9..] == Itoa(duration) && l[6..] == Itoa(limit);
    AtoiOfItoa(duration);
    AtoiOfItoa(limit);
    forall id | id in stops
      ensures Free(id, ',')
    {
      DigitsFree(id);
    }
    SplitOfJoin(stops);
  }

  /** Two keys are equal only if stops, duration and limit are. */
  lemma KeyInjective(stops: seq<string>, duration: int, limit: int, stops': seq<string>, duration': int, limit': int)
    requires ValidStops(stops) && ValidStops(stops')
    requires InInt64(duration) && InInt64(limit) && InInt64(duration') && InInt64(limit')
    requires CacheKey(stops, duration, limit) == CacheKey(stops', duration', limit')
    ensures stops == stops' && duration == duration' && limit == limit'
  {
    hide CacheKey, ReadKey;
    KeyReadsBack(stops, duration, limit);
    KeyReadsBack(stops', duration', limit');
  }

  /** Requests share a cache key exactly when they ask for the same stops, duration and limit. */
  lemma SameKeySameRequest(s: string, d: string, l: string, s': string, d': string, l': string)
    requires ParseStops(s).Some? && ParseStops(s').Some?
    ensures CacheKey(ParseStops(s).value, Duration(d), Limit(l)) == CacheKey(ParseStops(s').value, Duration(d'), Limit(l'))
       <==> ParseStops(s) == ParseStops(s') && Duration(d) == Duration(d') && Limit(l) == Limit(l')
  {
    hide CacheKey, Atoi, NonEmpty, Split;
    if CacheKey(ParseStops(s).value, Duration(d), Limit(l)) == CacheKey(ParseStops(s').value, Duration(d'), Limit(l')) {
      KeyInjective(ParseStops(s).value, Duration(d), Limit(l), ParseStops(s').value, Duration(d'), Limit(l'));
    }
  }
}
