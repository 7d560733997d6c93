/** The declared-hours ledger: self-reported hours, stored in the document
    store under a legacy encoding in which a whole number above 24 is a count
    of minutes and anything else is hours. The store is a sequence of records
    in server order; a list call returns one page of the records that match
    the user filter. */
module HorasDeclaradas {
  import opened Wrappers
  import opened AppwriteConfig
  import opened JsNumber

  const MINUTES_PER_HOUR: int := 60
  const LEGACY_HOURS_THRESHOLD: int := 24
  /** Page size of the pagination loop. */
  const PAGE_LIMIT: nat := 100
  const MISSING_COLLECTION_MESSAGE := "Falta NEXT_PUBLIC_APPWRITE_HORASDECLARADAS_COLLECTION_ID"

  /** The stored `horasDeclaradas` field: a number, a string, null, or absent. */
  datatype HorasValue = NumberValue(n: Number) | StringValue(s: string) | NullValue | Undefined

  datatype HorasDeclaradasRecord = HorasDeclaradasRecord(
    id: string,
    user: string,
    horasDeclaradas: HorasValue,
    motivo: Option<string>,
    fechaHorasDeclaradas: Option<string>)

  datatype CreateHorasDeclaradasInput = CreateHorasDeclaradasInput(
    user: string,
    horasDeclaradas: Number,
    motivo: string,
    fechaHorasDeclaradas: string)

  /** The fields written by a create call. */
  datatype HorasDeclaradasPayload = HorasDeclaradasPayload(
    user: string,
    horasDeclaradas: int,
    motivo: string,
    fechaHorasDeclaradas: string)

  /** `Number.parseFloat`, whose behaviour on strings is a parameter of the model. */
  type ParseFloat = string -> Number

  /** Configuration guard: the shared client check first, then the
      declared-hours collection id. */
  function EnsureHorasDeclaradasConfig(config: Config): (r: Outcome<ConfigurationError>)
    ensures r.Pass? <==> config.appwriteClientError.None? && IsSet(config.horasDeclaradasCollectionId)
    ensures config.appwriteClientError.Some? ==>
      r == Fail(ConfigurationError(config.appwriteClientError.value))
    ensures config.appwriteClientError.None? && !IsSet(config.horasDeclaradasCollectionId) ==>
      r == Fail(ConfigurationError(MISSING_COLLECTION_MESSAGE))
  {
    if config.appwriteClientError.Some? then Fail(ConfigurationError(config.appwriteClientError.value))
    else if !IsSet(config.horasDeclaradasCollectionId) then Fail(ConfigurationError(MISSING_COLLECTION_MESSAGE))
    else Pass
  }

  /** A number passes through unchanged; a string is parsed, an unparseable
      one giving 0; null and a missing value give 0. */
  function ParseHorasDeclaradasValue(value: HorasValue, parseFloat: ParseFloat): (r: Number)
    ensures value.NumberValue? ==> r == value.n
    ensures !value.NumberValue? ==> r.Finite?
    ensures value.StringValue? && parseFloat(value.s).Finite? ==> r == parseFloat(value.s)
    ensures value.StringValue? && !parseFloat(value.s).Finite? ==> r == Finite(0.0)
    ensures value.NullValue? || value.Undefined? ==> r == Finite(0.0)
  {
    match value
    case NumberValue(n) => n
    case StringValue(s) =>
      var parsed := parseFloat(s);
      if parsed.Finite? then parsed else Finite(0.0)
    case _ => Finite(0.0)
  }

  /** True of a parsed value that the legacy rule reads as minutes. */
  predicate IsLegacyMinutes(x: real)
  {
    IsInteger(x) && x > LEGACY_HOURS_THRESHOLD as real
  }

  /** Hours denoted by a stored value: a whole number above 24 is minutes and
      is divided by 60, any other finite value is already hours, and a
      non-finite value counts as 0. */
  function ToHorasDeclaradasHours(value: HorasValue, parseFloat: ParseFloat): (r: real)
    ensures var p := ParseHorasDeclaradasValue(value, parseFloat);
      && (!p.Finite? ==> r == 0.0)
      && (p.Finite? && IsLegacyMinutes(p.value) ==> r * 60.0 == p.value)
      && (p.Finite? && !IsLegacyMinutes(p.value) ==> r == p.value)
  {
    var parsed := ParseHorasDeclaradasValue(value, parseFloat);
    if !parsed.Finite? then 0.0
    else if IsLegacyMinutes(parsed.value) then parsed.value / MINUTES_PER_HOUR as real
    else parsed.value
  }

  /** Minutes to store for a number of hours: `hours * 60` rounded to the
      nearest integer (halves upwards), 0 for a non-finite value. */
  function ToHorasDeclaradasMinutes(hours: Number): (r: int)
    ensures !hours.Finite? ==> r == 0
    ensures hours.Finite? ==> hours.value * 60.0 - 0.5 < r as real <= hours.value * 60.0 + 0.5
  {
    if !hours.Finite? then 0 else Round(hours.value * MINUTES_PER_HOUR as real)
  }

  /** The legacy examples: 150 reads as 2.5 hours, while 24 and 2.5 are hours already. */
  lemma LegacyReadingExamples(parseFloat: ParseFloat)
    ensures ToHorasDeclaradasHours(NumberValue(Finite(150.0)), parseFloat) == 2.5
    ensures ToHorasDeclaradasHours(NumberValue(Finite(24.0)), parseFloat) == 24.0
    ensures ToHorasDeclaradasHours(NumberValue(Finite(2.5)), parseFloat) == 2.5
  {
  }

  /** Writing hours as minutes and reading them back returns the hours to
      within the rounding error, as long as the stored minutes exceed 24. */
  lemma StoredHoursReadBack(h: real, parseFloat: ParseFloat)
    requires ToHorasDeclaradasMinutes(Finite(h)) > LEGACY_HOURS_THRESHOLD
    ensures var back := ToHorasDeclaradasHours(NumberValue(Finite(ToHorasDeclaradasMinutes(Finite(h)) as real)), parseFloat);
      h - 1.0 / 120.0 < back <= h + 1.0 / 120.0
  {
  }

  /** When `60 * h` is a whole number above 24 the round trip is exact. */
  lemma RoundTripAboveThreshold(h: real, parseFloat: ParseFloat)
    requires IsInteger(h * 60.0) && h * 60.0 > LEGACY_HOURS_THRESHOLD as real
    ensures ToHorasDeclaradasMinutes(Finite(h)) as real == h * 60.0
    ensures ToHorasDeclaradasHours(NumberValue(Finite(ToHorasDeclaradasMinutes(Finite(h)) as real)), parseFloat) == h
  {
    RoundInteger(h * 60.0);
    var m := ToHorasDeclaradasMinutes(Finite(h));
    assert IsInteger(m as real) by { assert (m as real).Floor == m; }
  }

  /** The accepted legacy ambiguity: when `60 * h` is a whole number of at
      most 24, the stored minutes are read back as that many hours, so any
      positive such `h` is misread (0.25 h is stored as 15 and read as 15). */
  lemma RoundTripAtOrBelowThreshold(h: real, parseFloat: ParseFloat)
    requires IsInteger(h * 60.0) && h * 60.0 <= LEGACY_HOURS_THRESHOLD as real
    ensures ToHorasDeclaradasHours(NumberValue(Finite(ToHorasDeclaradasMinutes(Finite(h)) as real)), parseFloat) == h * 60.0
    ensures h > 0.0 ==> ToHorasDeclaradasHours(NumberValue(Finite(ToHorasDeclaradasMinutes(Finite(h)) as real)), parseFloat) != h
  {
    RoundInteger(h * 60.0);
  }

  /** For every non-zero `h` the round trip returns `h` exactly when more
      than 24 minutes are stored and `60 * h` is a whole number. */
  lemma RoundTripExactIff(h: real, parseFloat: ParseFloat)
    requires h != 0.0
    ensures var m := ToHorasDeclaradasMinutes(Finite(h));
      ToHorasDeclaradasHours(NumberValue(Finite(m as real)), parseFloat) == h <==>
        m > LEGACY_HOURS_THRESHOLD && IsInteger(h * 60.0)
  {
    var m := ToHorasDeclaradasMinutes(Finite(h));
    assert IsInteger(m as real) by { assert (m as real).Floor == m; }
    var back := ToHorasDeclaradasHours(NumberValue(Finite(m as real)), parseFloat);
    if m > LEGACY_HOURS_THRESHOLD {
      assert back * 60.0 == m as real;
      if IsInteger(h * 60.0) {
        RoundInteger(h * 60.0);
      }
      if back == h {
        assert (h * 60.0).Floor == m;
      }
    } else {
      assert back == m as real;
    }
  }

  // ---------------------------------------------------------------------
  // Listing and pagination

  /** The records of the store that match the `user` equality filter, in
      server order. */
  function Matching(store: seq<HorasDeclaradasRecord>, username: string): (r: seq<HorasDeclaradasRecord>)
    ensures |r| <= |store|
    ensures forall d :: d in r ==> d in store && d.user == username
    ensures forall d :: d in store && d.user == username ==> d in r
  {
    if store == [] then []
    else if store[0].user == username then [store[0]] + Matching(store[1..], username)
    else Matching(store[1..], username)
  }

  /** Filtering a concatenation filters each part in turn: the filter keeps
      every matching record exactly once, in server order. */
  lemma {:induction false} MatchingAppend(a: seq<HorasDeclaradasRecord>, b: seq<HorasDeclaradasRecord>, username: string)
    ensures Matching(a + b, username) == Matching(a, username) + Matching(b, username)
    decreases |a|
  {
    if a != [] {
      assert (a + b)[0] == a[0];
      assert (a + b)[1..] == a[1..] + b;
      MatchingAppend(a[1..], b, username);
    } else {
      assert a + b == b;
    }
  }

  /** One list call: the page of at most `limit` matching records starting at `offset`. */
  function ListDocuments(store: seq<HorasDeclaradasRecord>, username: string, limit: nat, offset: nat): (page: seq<HorasDeclaradasRecord>)
    ensures |page| <= limit
    ensures var m := Matching(store, username);
      && (offset <= |m| ==> |page| == if offset + limit <= |m| then limit else |m| - offset)
      && (offset > |m| ==> page == [])
      && forall i :: 0 <= i < |page| ==> page[i] == m[offset + i]
  {
    var m := Matching(store, username);
    if offset >= |m| then []
    else if offset + limit <= |m| then m[offset..offset + limit]
    else m[offset..]
  }

  /** The number of list calls the pagination loop makes for `n` matching
      records: one per full page plus the final short (possibly empty) one. */
  function ListCallsFor(n: nat): nat
  {
    n / PAGE_LIMIT + 1
  }

  /** Fetches every record of `username` by pages of PAGE_LIMIT, advancing the
      offset by the size of each page and stopping at the first page shorter
      than PAGE_LIMIT. Also returns the number of list calls made. */
  method FetchHorasDeclaradasForUser(config: Config, store: seq<HorasDeclaradasRecord>, username: string)
    returns (r: Result<seq<HorasDeclaradasRecord>, ConfigurationError>, listCalls: nat)
    ensures EnsureHorasDeclaradasConfig(config).Fail? ==>
      r == Failure(EnsureHorasDeclaradasConfig(config).error) && listCalls == 0
    ensures EnsureHorasDeclaradasConfig(config).Pass? ==>
      r == Success(Matching(store, username)) && listCalls == ListCallsFor(|Matching(store, username)|)
  {
    var guard := EnsureHorasDeclaradasConfig(config);
    if guard.Fail? {
      return Failure(guard.error), 0;
    }
    ghost var matching := Matching(store, username);
    var offset: nat := 0;
    var allDocuments: seq<HorasDeclaradasRecord> := [];
    var fetched := 0;
    var more := true;
    listCalls := 0;
    while more
      invariant offset <= |matching| && allDocuments == matching[..offset]
      invariant more ==> offset == listCalls * PAGE_LIMIT
      invariant !more ==> offset == |matching| && listCalls == ListCallsFor(|matching|)
      decreases |matching| - offset, more
    {
      var page := ListDocuments(store, username, PAGE_LIMIT, offset);
      listCalls := listCalls + 1;
      fetched := |page|;
      assert matching[offset..offset + fetched] == page;
      allDocuments := allDocuments + page;
      offset := offset + fetched;
      more := fetched == PAGE_LIMIT;
      if !more {
        assert (listCalls - 1) * PAGE_LIMIT <= |matching| < listCalls * PAGE_LIMIT;
        DivisionBetweenMultiples(|matching|, listCalls - 1);
      }
    }
    assert allDocuments == matching;
    r := Success(allDocuments);
  }

  lemma DivisionBetweenMultiples(n: nat, k: nat)
    requires k * PAGE_LIMIT <= n < (k + 1) * PAGE_LIMIT
    ensures n / PAGE_LIMIT == k
  {
  }

  // ---------------------------------------------------------------------
  // Aggregation

  /** The left fold `total + hours(document)` from 0 over `docs`. */
  function SumHours(docs: seq<HorasDeclaradasRecord>, parseFloat: ParseFloat): (r: real)
    ensures docs == [] ==> r == 0.0
    ensures (forall i :: 0 <= i < |docs| ==> ToHorasDeclaradasHours(docs[i].horasDeclaradas, parseFloat) >= 0.0) ==> r >= 0.0
  {
    if docs == [] then 0.0
    else SumHours(docs[..|docs| - 1], parseFloat) + ToHorasDeclaradasHours(docs[|docs| - 1].horasDeclaradas, parseFloat)
  }

  /** The fold distributes over concatenation, so the total does not depend
      on how the records were split into pages. */
  lemma {:induction false} SumHoursAppend(a: seq<HorasDeclaradasRecord>, b: seq<HorasDeclaradasRecord>, parseFloat: ParseFloat)
    ensures SumHours(a + b, parseFloat) == SumHours(a, parseFloat) + SumHours(b, parseFloat)
    decreases |b|
  {
    if b != [] {
      var b' := b[..|b| - 1];
      assert (a + b)[..|a + b| - 1] == a + b';
      SumHoursAppend(a, b', parseFloat);
    } else {
      assert a + b == a;
    }
  }

  /** Each record contributes exactly its hours reading. */
  lemma SumHoursCons(d: HorasDeclaradasRecord, docs: seq<HorasDeclaradasRecord>, parseFloat: ParseFloat)
    ensures SumHours([d] + docs, parseFloat) == ToHorasDeclaradasHours(d.horasDeclaradas, parseFloat) + SumHours(docs, parseFloat)
  {
    SumHoursAppend([d], docs, parseFloat);
    assert [d][..0] == [];
  }

  /** Sums the hours of every record of `username`, reading each stored
      value through the legacy unit rule. */
  method SumHorasDeclaradasForUser(config: Config, store: seq<HorasDeclaradasRecord>, username: string, parseFloat: ParseFloat)
    returns (r: Result<real, ConfigurationError>)
    ensures EnsureHorasDeclaradasConfig(config).Fail? ==> r == Failure(EnsureHorasDeclaradasConfig(config).error)
    ensures EnsureHorasDeclaradasConfig(config).Pass? ==> r == Success(SumHours(Matching(store, username), parseFloat))
    ensures EnsureHorasDeclaradasConfig(config).Pass? && (forall d :: d in store ==> d.user != username) ==>
      r == Success(0.0)
  {
    var documents, _ := FetchHorasDeclaradasForUser(config, store, username);
    match documents
    case Failure(e) => r := Failure(e);
    case Success(docs) =>
      if docs != [] {
        assert docs[0] in Matching(store, username);
      }
      r := Success(SumHours(docs, parseFloat));
  }

  /** The mixed-unit example: stored values 30 (legacy minutes), "2.5" and
      10 read as 0.5, 2.5 and 10 hours, totalling 13. */
  lemma MixedUnitsExample(parseFloat: ParseFloat, id: string, user: string)
    requires parseFloat("2.5") == Finite(2.5)
    ensures SumHours([
      HorasDeclaradasRecord(id, user, NumberValue(Finite(30.0)), None, None),
      HorasDeclaradasRecord(id, user, StringValue("2.5"), None, None),
      HorasDeclaradasRecord(id, user, NumberValue(Finite(10.0)), None, None)], parseFloat) == 13.0
    ensures ToHorasDeclaradasHours(NumberValue(Finite(30.0)), parseFloat) == 0.5
    ensures ToHorasDeclaradasHours(StringValue("2.5"), parseFloat) == 2.5
    ensures ToHorasDeclaradasHours(NumberValue(Finite(10.0)), parseFloat) == 10.0
  {
    var d0 := HorasDeclaradasRecord(id, user, NumberValue(Finite(30.0)), None, None);
    var d1 := HorasDeclaradasRecord(id, user, StringValue("2.5"), None, None);
    var d2 := HorasDeclaradasRecord(id, user, NumberValue(Finite(10.0)), None, None);
    assert IsInteger(30.0) by { assert (30.0).Floor == 30; }
    assert !IsInteger(2.5) by { assert (2.5).Floor == 2; }
    assert ToHorasDeclaradasHours(d0.horasDeclaradas, parseFloat) == 0.5;
    assert ToHorasDeclaradasHours(d1.horasDeclaradas, parseFloat) == 2.5;
    assert ToHorasDeclaradasHours(d2.horasDeclaradas, parseFloat) == 10.0;
    assert [d0, d1, d2][..2] == [d0, d1];
    assert [d0, d1][..1] == [d0];
    assert [d0][..0] == [];
    assert SumHours([d0], parseFloat) == 0.5;
    assert SumHours([d0, d1], parseFloat) == 3.0;
  }

  // ---------------------------------------------------------------------
  // Creation

  /** The payload a create call writes: the hours converted to minutes, the
      other fields passed through; a configuration error comes first. */
  function CreateHorasDeclaradas(config: Config, input: CreateHorasDeclaradasInput): (r: Result<HorasDeclaradasPayload, ConfigurationError>)
    ensures r.Failure? <==> EnsureHorasDeclaradasConfig(config).Fail?
    ensures r.Failure? ==> r.error == EnsureHorasDeclaradasConfig(config).error
    ensures r.Success? ==>
      && r.value.user == input.user
      && r.value.motivo == input.motivo
      && r.value.fechaHorasDeclaradas == input.fechaHorasDeclaradas
      && r.value.horasDeclaradas == ToHorasDeclaradasMinutes(input.horasDeclaradas)
  {
    match EnsureHorasDeclaradasConfig(config)
    case Fail(e) => Failure(e)
    case Pass =>
      Success(HorasDeclaradasPayload(input.user, ToHorasDeclaradasMinutes(input.horasDeclaradas),
        input.motivo, input.fechaHorasDeclaradas))
  }

  /** A created record, read back through the legacy rule, gives the declared
      hours to within the rounding error whenever more than 24 minutes were
      stored. */
  lemma CreatedPayloadReadBack(config: Config, input: CreateHorasDeclaradasInput, parseFloat: ParseFloat)
    requires CreateHorasDeclaradas(config, input).Success?
    requires input.horasDeclaradas.Finite?
    requires CreateHorasDeclaradas(config, input).value.horasDeclaradas > LEGACY_HOURS_THRESHOLD
    ensures var h := input.horasDeclaradas.value;
      var stored := CreateHorasDeclaradas(config, input).value.horasDeclaradas;
      var back := ToHorasDeclaradasHours(NumberValue(Finite(stored as real)), parseFloat);
      h - 1.0 / 120.0 < back <= h + 1.0 / 120.0
  {
  }
}
