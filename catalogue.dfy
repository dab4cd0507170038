/** The default facility catalogue and how it is built.

    The catalogue is ten series of facilities; a series holds `count`
    facilities coded `PREFIX-1` .. `PREFIX-count` that share a name, a type
    and a location. `DefaultFacilities` is the catalogue as a value and
    `BuildDefaultFacilities` builds it the way the source does, one append at
    a time. */
module Catalogue {
  import opened TimeOfDay
  import opened Schemas

  /** `str(n)` for a natural number: its decimal digits, no leading zeros. */
  function NatToString(n: nat): (s: string)
    ensures 1 <= |s| && (n >= 10 ==> |s| >= 2)
    ensures forall i :: 0 <= i < |s| ==> IsDigit(s[i])
  {
    if n < 10 then [DigitChar(n)] else NatToString(n / 10) + [DigitChar(n % 10)]
  }

  /** Different numbers have different decimal renderings. */
  lemma {:induction false} NatToStringInjective(a: nat, b: nat)
    requires NatToString(a) == NatToString(b)
    ensures a == b
  {
    var sa, sb := NatToString(a), NatToString(b);
    if a < 10 && b < 10 {
      assert DigitValue(sa[0]) == a && DigitValue(sb[0]) == b;
    } else if a >= 10 && b >= 10 {
      assert DigitValue(sa[|sa| - 1]) == a % 10 && DigitValue(sb[|sb| - 1]) == b % 10;
      assert sa[..|sa| - 1] == NatToString(a / 10);
      assert sb[..|sb| - 1] == NatToString(b / 10);
      NatToStringInjective(a / 10, b / 10);
    }
  }

  /** `f"{prefix}-{number}"`. */
  function Code(prefix: string, number: nat): string
  {
    prefix + "-" + NatToString(number)
  }

  datatype Series = Series(name: string, prefix: string, kind: FacilityType, location: string, count: nat)

  /** The i-th facility of a series (0-based), coded with number i + 1. */
  function Member(s: Series, i: nat): Facility
  {
    NewFacility(s.name, Code(s.prefix, i + 1), s.kind, Some(s.location))
  }

  function Members(s: Series): (fs: seq<Facility>)
    ensures |fs| == s.count
  {
    seq(s.count, i requires 0 <= i < s.count => Member(s, i))
  }

  /** The facilities of all series, series by series, in order. */
  function Expand(ss: seq<Series>): seq<Facility>
  {
    if ss == [] then [] else Members(ss[0]) + Expand(ss[1..])
  }

  function TotalCount(ss: seq<Series>): nat
  {
    if ss == [] then 0 else ss[0].count + TotalCount(ss[1..])
  }

  const DEFAULT_SERIES: seq<Series> := [
    Series("Meeting Room, Mezzanine Floor", "MR", MeetingRoom, "Mezzanine Floor", 10),
    Series("Discussion Room, Persada Tower", "DR", DiscussionRoom, "Selected Floors - Persada Tower", 11),
    Series("Banquet Hall", "BH", BanquetHall, "Convention Wing", 1),
    Series("Gymnasium", "GYM", Gym, "Level 2", 1),
    Series("PLUS Training Centre", "PTC", TrainingCentre, "Training Centre", 6),
    Series("PLUS Studio", "STUDIO", Studio, "Media Wing", 1),
    Series("Badminton Court", "BC", BadmintonCourt, "Sports Complex", 2),
    Series("Multipurpose Court", "MPC", MultipurposeCourt, "Sports Complex", 2),
    Series("Persada Football Field", "PFF", FootballField, "Outdoor", 1),
    Series("Netball Court", "NC", NetballCourt, "Sports Complex", 1)
  ]

  /** `DEFAULT_FACILITIES`: the catalogue the seed endpoint inserts. */
  function DefaultFacilities(): seq<Facility>
  {
    Expand(DEFAULT_SERIES)
  }

  predicate CodesDistinct(fs: seq<Facility>)
  {
    forall i, j :: 0 <= i < |fs| && 0 <= j < |fs| && i != j ==> fs[i].code != fs[j].code
  }

  /** The first two characters of a prefix tell the series apart. */
  function Key(s: Series): string
    requires |s.prefix| >= 2
  {
    s.prefix[..2]
  }

  predicate KeysDistinct(ss: seq<Series>)
  {
    && (forall i :: 0 <= i < |ss| ==> |ss[i].prefix| >= 2)
    && (forall i, j :: 0 <= i < |ss| && 0 <= j < |ss| && i != j ==> Key(ss[i]) != Key(ss[j]))
  }

  lemma {:induction false} ExpandLength(ss: seq<Series>)
    ensures |Expand(ss)| == TotalCount(ss)
  {
    if ss != [] {
      ExpandLength(ss[1..]);
    }
  }

  /** Expanding one more series appends its members. */
  lemma {:induction false} ExpandSnoc(ss: seq<Series>, g: nat)
    requires g < |ss|
    ensures Expand(ss[..g + 1]) == Expand(ss[..g]) + Members(ss[g])
  {
    if g > 0 {
      var tail := ss[1..];
      assert ss[..g + 1][1..] == tail[..g];
      assert ss[..g][1..] == tail[..g - 1];
      ExpandSnoc(tail, g - 1);
    }
  }

  /** Each facility of `Expand(ss)` is a member of one of the series. */
  lemma {:induction false} ExpandAt(ss: seq<Series>, k: nat)
    requires k < |Expand(ss)|
    ensures exists i, n :: 0 <= i < |ss| && 0 <= n < ss[i].count && Expand(ss)[k] == Member(ss[i], n)
  {
    var count := ss[0].count;
    if k < count {
      assert Expand(ss)[k] == Member(ss[0], k);
    } else {
      var tail := ss[1..];
      ExpandAt(tail, k - count);
      var i, n :| 0 <= i < |tail| && 0 <= n < tail[i].count && Expand(tail)[k - count] == Member(tail[i], n);
      assert Expand(ss)[k] == Member(ss[i + 1], n);
    }
  }

  /** Two codes of one series differ, since their numbers do. */
  lemma SameSeriesCodes(prefix: string, m: nat, n: nat)
    requires m != n
    ensures Code(prefix, m) != Code(prefix, n)
  {
    if Code(prefix, m) == Code(prefix, n) {
      var p := |prefix| + 1;
      assert Code(prefix, m)[p..] == NatToString(m);
      assert Code(prefix, n)[p..] == NatToString(n);
      NatToStringInjective(m, n);
    }
  }

  /** Codes of series whose prefixes start differently differ. */
  lemma CrossSeriesCodes(p: string, q: string, m: nat, n: nat)
    requires |p| >= 2 && |q| >= 2 && p[..2] != q[..2]
    ensures Code(p, m) != Code(q, n)
  {
    assert Code(p, m)[..2] == p[..2];
    assert Code(q, n)[..2] == q[..2];
  }

  /** A member of the first series and a facility of the later series have
      different codes. */
  lemma HeadTailCodesDiffer(ss: seq<Series>, x: nat, k: nat)
    requires KeysDistinct(ss) && ss != []
    requires x < ss[0].count && k < |Expand(ss[1..])|
    ensures Member(ss[0], x).code != Expand(ss[1..])[k].code
  {
    var tail := ss[1..];
    ExpandAt(tail, k);
    var i, n :| 0 <= i < |tail| && 0 <= n < tail[i].count && Expand(tail)[k] == Member(tail[i], n);
    assert tail[i] == ss[i + 1];
    assert Key(ss[0]) != Key(ss[i + 1]);
    CrossSeriesCodes(ss[0].prefix, ss[i + 1].prefix, x + 1, n + 1);
  }

  /** The members of one series have pairwise distinct codes. */
  lemma MembersCodesDistinct(s: Series)
    ensures CodesDistinct(Members(s))
  {
    var fs := Members(s);
    forall a, b | 0 <= a < |fs| && 0 <= b < |fs| && a != b
      ensures fs[a].code != fs[b].code
    {
      SameSeriesCodes(s.prefix, a + 1, b + 1);
    }
  }

  /** Two lists with distinct codes and no code in common concatenate to a
      list with distinct codes. */
  lemma ConcatCodesDistinct(xs: seq<Facility>, ys: seq<Facility>)
    requires CodesDistinct(xs) && CodesDistinct(ys)
    requires forall i, j :: 0 <= i < |xs| && 0 <= j < |ys| ==> xs[i].code != ys[j].code
    ensures CodesDistinct(xs + ys)
  {
    var fs := xs + ys;
    forall a, b | 0 <= a < |fs| && 0 <= b < |fs| && a != b
      ensures fs[a].code != fs[b].code
    {
      if a < |xs| && b < |xs| {
        assert fs[a] == xs[a] && fs[b] == xs[b];
      } else if a >= |xs| && b >= |xs| {
        assert fs[a] == ys[a - |xs|] && fs[b] == ys[b - |xs|];
      } else if a < |xs| {
        assert fs[a] == xs[a] && fs[b] == ys[b - |xs|];
      } else {
        assert fs[b] == xs[b] && fs[a] == ys[a - |xs|];
      }
    }
  }

  lemma TailKeysDistinct(ss: seq<Series>)
    requires KeysDistinct(ss) && ss != []
    ensures KeysDistinct(ss[1..])
  {
    var tail := ss[1..];
    forall i, j | 0 <= i < |tail| && 0 <= j < |tail| && i != j
      ensures |tail[i].prefix| >= 2 && |tail[j].prefix| >= 2 && Key(tail[i]) != Key(tail[j])
    {
      assert tail[i] == ss[i + 1] && tail[j] == ss[j + 1];
    }
  }

  /** Series with distinct keys give facilities with pairwise distinct codes. */
  lemma {:induction false} ExpandCodesDistinct(ss: seq<Series>)
    requires KeysDistinct(ss)
    ensures CodesDistinct(Expand(ss))
  {
    if ss != [] {
      var tail := ss[1..];
      TailKeysDistinct(ss);
      ExpandCodesDistinct(tail);
      MembersCodesDistinct(ss[0]);
      var head, rest := Members(ss[0]), Expand(tail);
      forall x, k | 0 <= x < |head| && 0 <= k < |rest|
        ensures head[x].code != rest[k].code
      {
        HeadTailCodesDiffer(ss, x, k);
      }
      ConcatCodesDistinct(head, rest);
    }
  }

  /** The two-letter keys of the default series, in order. */
  const DEFAULT_KEYS: seq<string> := ["MR", "DR", "BH", "GY", "PT", "ST", "BC", "MP", "PF", "NC"]

  lemma DefaultKeysAre()
    ensures |DEFAULT_SERIES| == |DEFAULT_KEYS|
    ensures forall i :: 0 <= i < |DEFAULT_SERIES| ==>
              |DEFAULT_SERIES[i].prefix| >= 2 && Key(DEFAULT_SERIES[i]) == DEFAULT_KEYS[i]
  {
    forall i | 0 <= i < |DEFAULT_SERIES|
      ensures |DEFAULT_SERIES[i].prefix| >= 2 && Key(DEFAULT_SERIES[i]) == DEFAULT_KEYS[i]
    {
      assert i == 0 || i == 1 || i == 2 || i == 3 || i == 4 || i == 5 || i == 6 || i == 7 || i == 8 || i == 9;
    }
  }

  lemma DefaultKeysListDistinct()
    ensures forall i, j :: 0 <= i < |DEFAULT_KEYS| && 0 <= j < |DEFAULT_KEYS| && i != j ==> DEFAULT_KEYS[i] != DEFAULT_KEYS[j]
  {
    forall i, j | 0 <= i < |DEFAULT_KEYS| && 0 <= j < |DEFAULT_KEYS| && i != j
      ensures DEFAULT_KEYS[i] != DEFAULT_KEYS[j]
    {
      assert i == 0 || i == 1 || i == 2 || i == 3 || i == 4 || i == 5 || i == 6 || i == 7 || i == 8 || i == 9;
      assert j == 0 || j == 1 || j == 2 || j == 3 || j == 4 || j == 5 || j == 6 || j == 7 || j == 8 || j == 9;
      assert DEFAULT_KEYS[i][0] != DEFAULT_KEYS[j][0] || DEFAULT_KEYS[i][1] != DEFAULT_KEYS[j][1];
    }
  }

  /** The ten series of the default catalogue have distinct keys. */
  lemma DefaultKeysDistinct()
    ensures KeysDistinct(DEFAULT_SERIES)
  {
    DefaultKeysAre();
    DefaultKeysListDistinct();
  }

  /** Every facility a catalogue expands to is active. */
  lemma ExpandAllActive(ss: seq<Series>)
    ensures forall k :: 0 <= k < |Expand(ss)| ==> Expand(ss)[k].isActive
  {
    forall k | 0 <= k < |Expand(ss)|
      ensures Expand(ss)[k].isActive
    {
      ExpandAt(ss, k);
    }
  }

  lemma DefaultCount()
    ensures |DefaultFacilities()| == 36
  {
    ExpandLength(DEFAULT_SERIES);
    assert TotalCount(DEFAULT_SERIES) == 36;
  }

  /** The default catalogue holds 36 facilities with pairwise distinct codes,
      every one of them active. */
  lemma DefaultCatalogue()
    ensures |DefaultFacilities()| == 36
    ensures CodesDistinct(DefaultFacilities())
    ensures forall i :: 0 <= i < |DefaultFacilities()| ==> DefaultFacilities()[i].isActive
  {
    DefaultCount();
    DefaultKeysDistinct();
    ExpandCodesDistinct(DEFAULT_SERIES);
    ExpandAllActive(DEFAULT_SERIES);
  }

  /** One `for i in range(count)` loop of the builder: appends the members
      of a series in order. */
  method AppendSeries(items: seq<Facility>, s: Series) returns (out: seq<Facility>)
    ensures out == items + Members(s)
  {
    out := items;
    for i := 0 to s.count
      invariant out == items + Members(s)[..i]
    {
      out := out + [NewFacility(s.name, Code(s.prefix, i + 1), s.kind, Some(s.location))];
    }
  }

  /** The builder's loops, over any list of series: appends the series one
      after another and yields their expansion. */
  method BuildCatalogue(ss: seq<Series>) returns (items: seq<Facility>)
    ensures items == Expand(ss)
  {
    items := [];
    for g := 0 to |ss|
      invariant items == Expand(ss[..g])
    {
      ExpandSnoc(ss, g);
      items := AppendSeries(items, ss[g]);
    }
    assert ss[..|ss|] == ss;
  }

  /** `build_default_facilities`: the builder run over the default series. */
  method BuildDefaultFacilities() returns (items: seq<Facility>)
    ensures items == DefaultFacilities()
  {
    items := BuildCatalogue(DEFAULT_SERIES);
  }
}
