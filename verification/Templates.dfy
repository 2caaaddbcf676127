/** The request to open a topology template: two names and any number of source
    filters, packed and unpacked on the server side. */
module Templates {
  import opened Bytes
  import opened Messages

  const NAME_FIELD: nat := 30
  const HOST_FIELD: nat := 32
  const HEADER: nat := 62
  const FILTER_LENGTH: nat := 5
  const WIDEST_MASK: byte := 32

  /** A source address and the number of bits its mask keeps. */
  datatype Filter = Filter(ip: Ip, mask: byte)

  datatype Template = Template(name: seq<byte>, host: seq<byte>, filters: seq<Filter>)

  datatype Unpacked = Opened(template: Template) | TooShort | BadMask(mask: byte)

  /** The constructor: without source filters there is the one that admits all. */
  function Make(name: seq<byte>, host: seq<byte>, filters: seq<Filter>): (t: Template)
    ensures t.filters != []
  {
    Template(name, host, if filters == [] then [Filter([0, 0, 0, 0], 0)] else filters)
  }

  function PackFilters(filters: seq<Filter>): (s: seq<byte>)
    ensures |s| == FILTER_LENGTH * |filters|
  {
    if filters == [] then []
    else
      var last := filters[|filters| - 1];
      PackFilters(filters[..|filters| - 1]) + (last.ip + [last.mask])
  }

  function PackTemplate(t: Template): (s: seq<byte>)
    ensures |s| == HEADER + FILTER_LENGTH * |t.filters|
  {
    Field(t.name, NAME_FIELD) + Field(t.host, HOST_FIELD) + PackFilters(t.filters)
  }

  function FilterAt(s: seq<byte>, i: nat): Filter
    requires i < |s| / FILTER_LENGTH
  {
    Filter(s[FILTER_LENGTH * i..FILTER_LENGTH * i + 4], s[FILTER_LENGTH * i + 4])
  }

  /** The whole filters of a stretch of octets, a trailing piece being ignored. */
  function FiltersOf(s: seq<byte>): (r: seq<Filter>)
    ensures |r| == |s| / FILTER_LENGTH
    ensures forall i :: 0 <= i < |r| ==> r[i] == FilterAt(s, i)
  {
    seq(|s| / FILTER_LENGTH, i requires 0 <= i < |s| / FILTER_LENGTH => FilterAt(s, i))
  }

  /** The position of the first filter with a mask over 32, or their number. */
  function FirstBad(filters: seq<Filter>): (k: nat)
    ensures k <= |filters| && (k < |filters| ==> filters[k].mask > WIDEST_MASK)
    ensures forall i :: 0 <= i < k ==> filters[i].mask <= WIDEST_MASK
  {
    if filters == [] || filters[0].mask > WIDEST_MASK then 0 else 1 + FirstBad(filters[1..])
  }

  /** What unpacking makes of a message body. */
  function Unpack(body: seq<byte>): Unpacked {
    if |body| < HEADER then TooShort
    else
      var filters := FiltersOf(body[HEADER..]);
      var k := FirstBad(filters);
      if k < |filters| then BadMask(filters[k].mask)
      else Opened(Make(StripNulls(body[..NAME_FIELD]), StripNulls(body[NAME_FIELD..HEADER]), filters))
  }

  lemma {:induction false} FirstBadIs(filters: seq<Filter>, k: nat)
    requires k <= |filters| && (k < |filters| ==> filters[k].mask > WIDEST_MASK)
    requires forall i :: 0 <= i < k ==> filters[i].mask <= WIDEST_MASK
    ensures FirstBad(filters) == k
  {
    if k > 0 {
      assert filters[0].mask <= WIDEST_MASK;
      assert forall i :: 0 <= i < k - 1 ==> filters[1..][i] == filters[i + 1];
      FirstBadIs(filters[1..], k - 1);
    }
  }

  /** The loop that collects the filters and stops at the first bad mask. */
  method UnpackTemplate(body: seq<byte>) returns (r: Unpacked)
    ensures r == Unpack(body)
  {
    hide StripNulls, FirstBad;
    if |body| < HEADER {
      return TooShort;
    }
    var filters: seq<Filter> := [];
    var rest := body[HEADER..];
    ghost var all := FiltersOf(rest);
    for i := 0 to |rest| / FILTER_LENGTH
      invariant filters == all[..i] && forall j :: 0 <= j < i ==> all[j].mask <= WIDEST_MASK
    {
      var f := FilterAt(rest, i);
      if f.mask > WIDEST_MASK {
        FirstBadIs(all, i);
        return BadMask(f.mask);
      }
      filters := filters + [f];
    }
    FirstBadIs(all, |all|);
    assert all[..|all|] == all;
    return Opened(Make(StripNulls(body[..NAME_FIELD]), StripNulls(body[NAME_FIELD..HEADER]), filters));
  }

  // ---------- the round trip ----------

  lemma {:induction false} FiltersSurvive(filters: seq<Filter>)
    ensures FiltersOf(PackFilters(filters)) == filters
  {
    if filters != [] {
      var n := |filters| - 1;
      FiltersSurvive(filters[..n]);
      OneMoreFilter(PackFilters(filters[..n]), filters[n], n);
    }
  }

  lemma OneMoreFilter(s: seq<byte>, f: Filter, n: nat)
    requires |s| == FILTER_LENGTH * n
    ensures FiltersOf(s + (f.ip + [f.mask])) == FiltersOf(s) + [f]
  {
    var t := s + (f.ip + [f.mask]);
    assert |t| == FILTER_LENGTH * (n + 1);
    forall i | 0 <= i < n
      ensures FilterAt(t, i) == FilterAt(s, i)
    {
      assert FILTER_LENGTH * i + 4 < |s|;
      assert t[FILTER_LENGTH * i..FILTER_LENGTH * i + 4] == s[FILTER_LENGTH * i..FILTER_LENGTH * i + 4];
    }
    assert t[FILTER_LENGTH * n..FILTER_LENGTH * n + 4] == f.ip;
  }

  /** A text survives a fixed-size field exactly when it fits and has no NUL. */
  lemma FieldSurvives(s: seq<byte>, n: nat)
    ensures StripNulls(Field(s, n)) == s <==> |s| <= n && 0 !in s
  {
    hide StripNulls;
    StripLength(Field(s, n));
    if |s| <= n {
      StripLength(s);
      StripZeros(n - |s|);
      StripConcat(s, Zeros(n - |s|));
      assert Field(s, n) == s + Zeros(n - |s|);
      assert StripNulls(s) + [] == StripNulls(s);
    }
  }

  /** What a packed template unpacks to, for any names and filters: the first mask
      over 32 is refused, and otherwise every filter arrives. */
  lemma PackedUnpacks(t: Template)
    ensures Unpack(PackTemplate(t)) ==
      if FirstBad(t.filters) < |t.filters| then BadMask(t.filters[FirstBad(t.filters)].mask)
      else Opened(Make(StripNulls(Field(t.name, NAME_FIELD)), StripNulls(Field(t.host, HOST_FIELD)), t.filters))
  {
    hide StripNulls, FirstBad, Field, FiltersOf, PackFilters;
    var s := PackTemplate(t);
    assert s[..NAME_FIELD] == Field(t.name, NAME_FIELD) && s[NAME_FIELD..HEADER] == Field(t.host, HOST_FIELD);
    assert s[HEADER..] == PackFilters(t.filters);
    FiltersSurvive(t.filters);
  }

  /** A template survives exactly when its names fit their fields and have no NUL
      and no mask is over 32; the empty list arrives as the default filter. */
  lemma TemplateRoundTrip(name: seq<byte>, host: seq<byte>, filters: seq<Filter>)
    ensures var t := Make(name, host, filters);
      Unpack(PackTemplate(t)) == Opened(t) <==>
      && |name| <= NAME_FIELD && 0 !in name && |host| <= HOST_FIELD && 0 !in host
      && forall i :: 0 <= i < |filters| ==> filters[i].mask <= WIDEST_MASK
  {
    hide StripNulls, FirstBad, Field, Unpack, PackTemplate;
    var t := Make(name, host, filters);
    PackedUnpacks(t);
    FieldSurvives(name, NAME_FIELD);
    FieldSurvives(host, HOST_FIELD);
    if filters == [] {
      assert t.filters == [Filter([0, 0, 0, 0], 0)];
      FirstBadIs(t.filters, 1);
    } else if k: nat :| k < |filters| && filters[k].mask > WIDEST_MASK {
    }
  }

  /** The length the class declares for the body. */
  function DeclaredTemplateLength(t: Template): nat {
    HEADER + 30 + FILTER_LENGTH * |t.filters|
  }

  /** It is thirty more than what is packed: a receiver that takes so many octets of
      a stream reads the filters of the template and six more, made of whatever
      follows. */
  lemma DeclaredLengthReadsSixMore(t: Template, rest: seq<byte>)
    requires |rest| >= 30
    ensures var s := PackTemplate(t) + rest;
      && DeclaredTemplateLength(t) <= |s|
      && FiltersOf(s[HEADER..DeclaredTemplateLength(t)]) == t.filters + FiltersOf(rest[..30])
      && |FiltersOf(rest[..30])| == 6
  {
    hide Field, PackFilters, FiltersOf;
    var s := PackTemplate(t) + rest;
    assert s[HEADER..DeclaredTemplateLength(t)] == PackFilters(t.filters) + rest[..30];
    FiltersConcat(PackFilters(t.filters), rest[..30], |t.filters|);
    FiltersSurvive(t.filters);
  }

  lemma FiltersConcat(a: seq<byte>, b: seq<byte>, n: nat)
    requires |a| == FILTER_LENGTH * n
    ensures FiltersOf(a + b) == FiltersOf(a) + FiltersOf(b)
  {
    hide FilterAt;
    forall i | 0 <= i < |FiltersOf(a + b)|
      ensures FiltersOf(a + b)[i] == (FiltersOf(a) + FiltersOf(b))[i]
    {
      if i < n {
        SliceOfFirst(a, b, FILTER_LENGTH * i, FILTER_LENGTH * i + FILTER_LENGTH);
        SameFilter(a + b, i, a, i);
      } else {
        SliceOfSecond(a, b, FILTER_LENGTH * (i - n), FILTER_LENGTH * (i - n) + FILTER_LENGTH);
        SameFilter(a + b, i, b, i - n);
      }
    }
  }

  lemma SameFilter(s: seq<byte>, i: nat, t: seq<byte>, k: nat)
    requires i < |s| / FILTER_LENGTH && k < |t| / FILTER_LENGTH
    requires s[FILTER_LENGTH * i..FILTER_LENGTH * i + FILTER_LENGTH] ==
      t[FILTER_LENGTH * k..FILTER_LENGTH * k + FILTER_LENGTH]
    ensures FilterAt(s, i) == FilterAt(t, k)
  {
    HeadOfSlice(s, FILTER_LENGTH * i, FILTER_LENGTH * i + FILTER_LENGTH, 4);
    HeadOfSlice(t, FILTER_LENGTH * k, FILTER_LENGTH * k + FILTER_LENGTH, 4);
  }
}
