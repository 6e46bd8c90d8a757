/**
 * The launch store and the launch lifecycle: existence checks, paginated
 * listing in flight-number order, flight-number allocation, upsert keyed by
 * flight number, scheduling against the planet catalog, and abort.
 */
module Launches {
  import opened Wrappers

  /** A launch date, as the number of milliseconds a `Date` holds. */
  type Timestamp = int

  /** The flight number the numbering starts after when the store is empty. */
  const DEFAULT_FLIGHT_NUMBER: int := 100
  /** The customers every newly scheduled launch is given. */
  const DEFAULT_CUSTOMERS: seq<string> := ["Zero to Mastery", "NASA"]
  const NO_MATCHING_PLANET: string := "No matching planet found"

  /** A launch record. Launches downloaded from SpaceX carry no target. */
  datatype Launch = Launch(
    flightNumber: int,
    mission: string,
    rocket: string,
    launchDate: Timestamp,
    target: Option<string>,
    customers: seq<string>,
    upcoming: bool,
    success: bool)

  /** A `findOne` filter: every field that is present must match exactly. */
  datatype LaunchFilter = LaunchFilter(flightNumber: Option<int>, rocket: Option<string>, mission: Option<string>)

  predicate Matches(launch: Launch, filter: LaunchFilter): (matches: bool)
    // the empty filter matches every launch
    ensures filter == LaunchFilter(None, None, None) ==> matches
    // a launch matches the filter made of its own number, rocket and mission
    ensures filter == LaunchFilter(Some(launch.flightNumber), Some(launch.rocket), Some(launch.mission)) ==> matches
    // a filter naming another flight number matches nothing
    ensures filter.flightNumber.Some? && filter.flightNumber.value != launch.flightNumber ==> !matches
  {
    && (filter.flightNumber.Some? ==> launch.flightNumber == filter.flightNumber.value)
    && (filter.rocket.Some? ==> launch.rocket == filter.rocket.value)
    && (filter.mission.Some? ==> launch.mission == filter.mission.value)
  }

  /** The first SpaceX launch; finding it means the download already happened. */
  const FIRST_LAUNCH: LaunchFilter := LaunchFilter(Some(1), Some("Falcon 1"), Some("FalconSat"))

  // ---------------------------------------------------------------------------
  // The SpaceX launch document and its mapping to a launch record

  datatype Payload = Payload(customers: seq<string>)

  datatype LaunchDoc = LaunchDoc(
    flightNumber: int,
    name: string,
    rocketName: string,
    dateLocal: Timestamp,
    upcoming: bool,
    success: bool,
    payloads: seq<Payload>)

  /** `flatMap` over the payloads: every payload's customers, payload after payload. */
  function PayloadCustomers(payloads: seq<Payload>): (customers: seq<string>)
    ensures forall c :: c in customers <==> exists i :: 0 <= i < |payloads| && c in payloads[i].customers
  {
    if payloads == [] then []
    else
      var rest := PayloadCustomers(payloads[1..]);
      assert forall i :: 1 <= i < |payloads| ==> payloads[1..][i - 1] == payloads[i];
      payloads[0].customers + rest
  }

  /** The customers of a sequence of payloads are those of each part, in order. */
  lemma {:induction false} PayloadCustomersAppend(a: seq<Payload>, b: seq<Payload>)
    ensures PayloadCustomers(a + b) == PayloadCustomers(a) + PayloadCustomers(b)
  {
    if a != [] {
      assert (a + b)[1..] == a[1..] + b;
      PayloadCustomersAppend(a[1..], b);
    } else {
      assert a + b == b;
    }
  }

  /** The number of customers is the sum over the payloads. */
  function CustomerCount(payloads: seq<Payload>): (count: nat)
  {
    if payloads == [] then 0 else |payloads[0].customers| + CustomerCount(payloads[1..])
  }

  lemma {:induction false} PayloadCustomersCount(payloads: seq<Payload>)
    ensures |PayloadCustomers(payloads)| == CustomerCount(payloads)
  {
    if payloads != [] {
      PayloadCustomersCount(payloads[1..]);
    }
  }

  function LaunchFromDoc(doc: LaunchDoc): (launch: Launch)
    ensures launch.flightNumber == doc.flightNumber
    ensures launch.mission == doc.name && launch.rocket == doc.rocketName
    ensures launch.launchDate == doc.dateLocal
    ensures launch.upcoming == doc.upcoming && launch.success == doc.success
    ensures launch.target.None?
    ensures launch.customers == PayloadCustomers(doc.payloads)
    ensures forall c :: c in launch.customers <==> exists i :: 0 <= i < |doc.payloads| && c in doc.payloads[i].customers
  {
    Launch(doc.flightNumber, doc.name, doc.rocketName, doc.dateLocal, None,
           PayloadCustomers(doc.payloads), doc.upcoming, doc.success)
  }

  // ---------------------------------------------------------------------------
  // Store contents as a value

  /** Every record is stored under its own flight number. */
  ghost predicate KeyedByFlightNumber(m: map<int, Launch>)
  {
    forall n :: n in m ==> m[n].flightNumber == n
  }

  /** Strictly ascending flight numbers. */
  ghost predicate InFlightOrder(s: seq<Launch>)
  {
    forall i, j :: 0 <= i < j < |s| ==> s[i].flightNumber < s[j].flightNumber
  }

  lemma HasElement(keys: set<int>)
    requires keys != {}
    ensures exists k :: k in keys
  {
    assert (forall k :: k !in keys) ==> keys == {};
  }

  lemma {:induction false} LeastElement(keys: set<int>) returns (least: int)
    requires keys != {}
    ensures least in keys && forall k :: k in keys ==> least <= k
  {
    HasElement(keys);
    var x :| x in keys;
    var rest := keys - {x};
    if rest == {} {
      least := x;
      forall k | k in keys ensures least <= k {
        assert k !in rest;
      }
    } else {
      var m := LeastElement(rest);
      least := if x < m then x else m;
      forall k | k in keys ensures least <= k {
        if k != x {
          assert k in rest;
        }
      }
    }
  }

  lemma {:induction false} GreatestElement(keys: set<int>) returns (greatest: int)
    requires keys != {}
    ensures greatest in keys && forall k :: k in keys ==> k <= greatest
  {
    HasElement(keys);
    var x :| x in keys;
    var rest := keys - {x};
    if rest == {} {
      greatest := x;
      forall k | k in keys ensures k <= greatest {
        assert k !in rest;
      }
    } else {
      var m := GreatestElement(rest);
      greatest := if x > m then x else m;
      forall k | k in keys ensures k <= greatest {
        if k != x {
          assert k in rest;
        }
      }
    }
  }

  lemma MinExists(keys: set<int>)
    requires keys != {}
    ensures exists m :: m in keys && forall k :: k in keys ==> m <= k
  {
    var least := LeastElement(keys);
  }

  lemma MaxExists(keys: set<int>)
    requires keys != {}
    ensures exists m :: m in keys && forall k :: k in keys ==> k <= m
  {
    var greatest := GreatestElement(keys);
  }

  function MinOf(keys: set<int>): (least: int)
    requires keys != {}
    ensures least in keys && forall k :: k in keys ==> least <= k
  {
    MinExists(keys);
    var least :| least in keys && forall k :: k in keys ==> least <= k;
    least
  }

  function MaxOf(keys: set<int>): (greatest: int)
    requires keys != {}
    ensures greatest in keys && forall k :: k in keys ==> k <= greatest
  {
    MaxExists(keys);
    var greatest :| greatest in keys && forall k :: k in keys ==> k <= greatest;
    greatest
  }

  /** Putting the least key in front of the ascending rest gives all keys ascending. */
  lemma PrependLeast(keys: set<int>, least: int, rest: seq<int>)
    requires least in keys && forall k :: k in keys ==> least <= k
    requires |rest| == |keys - {least}|
    requires forall i :: 0 <= i < |rest| ==> rest[i] in keys - {least}
    requires forall k :: k in keys - {least} ==> k in rest
    requires forall i, j :: 0 <= i < j < |rest| ==> rest[i] < rest[j]
    ensures |[least] + rest| == |keys|
    ensures forall i :: 0 <= i < |[least] + rest| ==> ([least] + rest)[i] in keys
    ensures forall k :: k in keys ==> k in [least] + rest
    ensures forall i, j :: 0 <= i < j < |[least] + rest| ==> ([least] + rest)[i] < ([least] + rest)[j]
  {
    var ns := [least] + rest;
    forall i | 0 <= i < |ns| ensures ns[i] in keys {
      if i > 0 {
        assert ns[i] == rest[i - 1];
      }
    }
    forall k | k in keys ensures k in ns {
      if k != least {
        assert k in keys - {least};
      }
    }
    forall i, j | 0 <= i < j < |ns| ensures ns[i] < ns[j] {
      assert ns[j] == rest[j - 1];
      if i > 0 {
        assert ns[i] == rest[i - 1];
      } else {
        assert rest[j - 1] in keys - {least};
      }
    }
  }

  /** The flight numbers in ascending order: the order of `sort({ flightNumber: 1 })`. */
  function SortedNumbers(keys: set<int>): (ns: seq<int>)
    ensures |ns| == |keys|
    ensures forall i :: 0 <= i < |ns| ==> ns[i] in keys
    ensures forall k :: k in keys ==> k in ns
    ensures forall i, j :: 0 <= i < j < |ns| ==> ns[i] < ns[j]
    decreases |keys|
  {
    if keys == {} then []
    else
      var least := MinOf(keys);
      var rest := SortedNumbers(keys - {least});
      PrependLeast(keys, least, rest);
      [least] + rest
  }

  /** The records stored under the given flight numbers, in the same order. */
  function Lookup(m: map<int, Launch>, ns: seq<int>): (s: seq<Launch>)
    requires forall i :: 0 <= i < |ns| ==> ns[i] in m
    ensures |s| == |ns|
    ensures forall i :: 0 <= i < |ns| ==> s[i] == m[ns[i]]
  {
    if ns == [] then [] else [m[ns[0]]] + Lookup(m, ns[1..])
  }

  /** Looking up ascending flight numbers in a keyed store gives records ascending by flight number. */
  lemma LookupInFlightOrder(m: map<int, Launch>, ns: seq<int>)
    requires KeyedByFlightNumber(m)
    requires forall i :: 0 <= i < |ns| ==> ns[i] in m
    requires forall i, j :: 0 <= i < j < |ns| ==> ns[i] < ns[j]
    ensures InFlightOrder(Lookup(m, ns))
  {
    var s := Lookup(m, ns);
    forall i, j | 0 <= i < j < |s| ensures s[i].flightNumber < s[j].flightNumber {
      assert s[i] == m[ns[i]] && s[j] == m[ns[j]];
    }
  }

  /** All stored records, ascending by flight number. */
  function Ordered(m: map<int, Launch>): (s: seq<Launch>)
    ensures |s| == |m.Keys|
    ensures KeyedByFlightNumber(m) ==> InFlightOrder(s)
  {
    var ns := SortedNumbers(m.Keys);
    assert forall i :: 0 <= i < |ns| ==> ns[i] in m by {
      forall i | 0 <= i < |ns| ensures ns[i] in m {
        assert ns[i] in m.Keys;
      }
    }
    assert KeyedByFlightNumber(m) ==> InFlightOrder(Lookup(m, ns)) by {
      if KeyedByFlightNumber(m) {
        LookupInFlightOrder(m, ns);
      }
    }
    Lookup(m, ns)
  }

  /** Every stored record appears in the ordered listing. */
  lemma OrderedHasRecord(m: map<int, Launch>, n: int)
    requires n in m
    ensures exists i :: 0 <= i < |Ordered(m)| && Ordered(m)[i] == m[n]
  {
    var ns := SortedNumbers(m.Keys);
    assert n in ns;
    var i :| 0 <= i < |ns| && ns[i] == n;
    assert Ordered(m)[i] == m[n];
  }

  /** Every record of the ordered listing is stored under its own flight number. */
  lemma OrderedRecordIsStored(m: map<int, Launch>, i: int)
    requires KeyedByFlightNumber(m) && 0 <= i < |Ordered(m)|
    ensures Ordered(m)[i].flightNumber in m && m[Ordered(m)[i].flightNumber] == Ordered(m)[i]
  {
    var ns := SortedNumbers(m.Keys);
    assert Ordered(m)[i] == m[ns[i]];
  }

  /** The `skip`/`limit` window of a result set; a limit of 0 means "all the rest". */
  function Window(all: seq<Launch>, skip: nat, limit: nat): (page: seq<Launch>)
    ensures forall i :: 0 <= i < |page| ==> skip + i < |all| && page[i] == all[skip + i]
    ensures skip >= |all| ==> page == []
    ensures skip < |all| && (limit == 0 || limit >= |all| - skip) ==> |page| == |all| - skip
    ensures skip < |all| && 0 < limit < |all| - skip ==> |page| == limit
  {
    if skip >= |all| then []
    else if limit == 0 || limit >= |all| - skip then all[skip..]
    else all[skip..skip + limit]
  }

  /** The flight number the next launch follows: the largest stored one, or the default. */
  function LatestFlightNumber(m: map<int, Launch>): (latest: int)
    ensures m.Keys == {} ==> latest == DEFAULT_FLIGHT_NUMBER
    ensures m.Keys != {} ==> latest in m && forall n :: n in m ==> n <= latest
  {
    if m.Keys == {} then DEFAULT_FLIGHT_NUMBER else MaxOf(m.Keys)
  }

  /** A launch in its terminal, aborted state. */
  function Aborted(launch: Launch): (aborted: Launch)
  {
    launch.(upcoming := false, success := false)
  }

  /** Aborting changes a record exactly when it is still upcoming or successful. */
  predicate AbortModifies(m: map<int, Launch>, id: int)
  {
    id in m && Aborted(m[id]) != m[id]
  }

  /** The store after an abort of `id`: an update that never inserts. */
  function AbortedStore(m: map<int, Launch>, id: int): (m': map<int, Launch>)
    ensures m'.Keys == m.Keys
  {
    if id in m then m[id := Aborted(m[id])] else m
  }

  /** The store after saving the mapped documents one after the other. */
  function SaveAll(m: map<int, Launch>, docs: seq<LaunchDoc>): (saved: map<int, Launch>)
  {
    if docs == [] then m
    else
      var launch := LaunchFromDoc(docs[|docs| - 1]);
      SaveAll(m, docs[..|docs| - 1])[launch.flightNumber := launch]
  }

  predicate AlreadyLoaded(m: map<int, Launch>)
  {
    exists n :: n in m && Matches(m[n], FIRST_LAUNCH)
  }

  // ---------------------------------------------------------------------------
  // Properties of the store operations

  lemma AbortModifiesIff(m: map<int, Launch>, id: int)
    ensures AbortModifies(m, id) <==> id in m && (m[id].upcoming || m[id].success)
  {
  }

  /** Aborting twice: the second abort finds nothing to change and reports so. */
  lemma RepeatAbortReportsFalse(m: map<int, Launch>, id: int)
    ensures !AbortModifies(AbortedStore(m, id), id)
    ensures AbortedStore(AbortedStore(m, id), id) == AbortedStore(m, id)
  {
  }

  /** Aborting only touches the record with that flight number. */
  lemma AbortTouchesOnlyItsRecord(m: map<int, Launch>, id: int, n: int)
    requires n in m && n != id
    ensures AbortedStore(m, id)[n] == m[n]
  {
  }

  /** The last record in flight-number order carries the latest flight number. */
  lemma LastIsLatest(m: map<int, Launch>)
    requires KeyedByFlightNumber(m) && m.Keys != {}
    ensures |Ordered(m)| > 0 && Ordered(m)[|Ordered(m)| - 1].flightNumber == LatestFlightNumber(m)
  {
    var all := Ordered(m);
    assert |all| > 0 by {
      HasElement(m.Keys);
    }
    var last := all[|all| - 1].flightNumber;
    OrderedRecordIsStored(m, |all| - 1);
    var latest := LatestFlightNumber(m);
    OrderedHasRecord(m, latest);
    var i :| 0 <= i < |all| && all[i] == m[latest];
  }

  /** A newly scheduled launch becomes the latest, so numbering continues after it. */
  lemma ScheduledBecomesLatest(m: map<int, Launch>, launch: Launch)
    requires launch.flightNumber == LatestFlightNumber(m) + 1
    ensures LatestFlightNumber(m[launch.flightNumber := launch]) == launch.flightNumber
  {
    var stored := m[launch.flightNumber := launch];
    assert launch.flightNumber in stored.Keys;
  }

  /** Loading keeps keying, stores every document under its flight number and adds nothing else. */
  lemma {:induction false} SaveAllStoresEveryDoc(m: map<int, Launch>, docs: seq<LaunchDoc>)
    requires KeyedByFlightNumber(m)
    ensures KeyedByFlightNumber(SaveAll(m, docs))
    ensures SaveAll(m, docs).Keys == m.Keys + set i | 0 <= i < |docs| :: docs[i].flightNumber
    ensures forall i :: 0 <= i < |docs| ==> docs[i].flightNumber in SaveAll(m, docs)
  {
    if docs != [] {
      var init := docs[..|docs| - 1];
      SaveAllStoresEveryDoc(m, init);
      var added := set i | 0 <= i < |docs| :: docs[i].flightNumber;
      var addedInit := set i | 0 <= i < |init| :: init[i].flightNumber;
      assert added == addedInit + {docs[|docs| - 1].flightNumber} by {
        forall n | n in added ensures n in addedInit + {docs[|docs| - 1].flightNumber} {
          var i :| 0 <= i < |docs| && docs[i].flightNumber == n;
          if i < |docs| - 1 {
            assert init[i] == docs[i];
          }
        }
        forall n | n in addedInit ensures n in added {
          var i :| 0 <= i < |init| && init[i].flightNumber == n;
          assert docs[i] == init[i];
        }
      }
    }
  }

  /** A document's launch is what ends up stored under its flight number unless a later document reuses the number. */
  lemma {:induction false} SaveAllStoresLastDoc(m: map<int, Launch>, docs: seq<LaunchDoc>, i: int)
    requires 0 <= i < |docs|
    requires forall j :: i < j < |docs| ==> docs[j].flightNumber != docs[i].flightNumber
    ensures docs[i].flightNumber in SaveAll(m, docs)
    ensures SaveAll(m, docs)[docs[i].flightNumber] == LaunchFromDoc(docs[i])
  {
    if i < |docs| - 1 {
      var init := docs[..|docs| - 1];
      assert forall j :: i < j < |init| ==> init[j] == docs[j];
      SaveAllStoresLastDoc(m, init, i);
      assert init[i] == docs[i];
    }
  }

  /** A stored record whose flight number no document carries keeps its value. */
  lemma {:induction false} SaveAllKeepsUntouched(m: map<int, Launch>, docs: seq<LaunchDoc>, n: int)
    requires n in m
    requires forall i :: 0 <= i < |docs| ==> docs[i].flightNumber != n
    ensures n in SaveAll(m, docs) && SaveAll(m, docs)[n] == m[n]
  {
    if docs != [] {
      var init := docs[..|docs| - 1];
      assert forall i :: 0 <= i < |init| ==> init[i] == docs[i];
      SaveAllKeepsUntouched(m, init, n);
    }
  }

  /** Listing the whole store returns every record, ascending by flight number. */
  lemma ListEverything(m: map<int, Launch>)
    requires KeyedByFlightNumber(m)
    ensures Window(Ordered(m), 0, 0) == Ordered(m)
    ensures InFlightOrder(Window(Ordered(m), 0, 0))
    ensures forall n :: n in m ==> m[n] in Window(Ordered(m), 0, 0)
  {
    forall n | n in m ensures m[n] in Ordered(m) {
      OrderedHasRecord(m, n);
    }
  }

  /** Skip 1, limit 1 gives exactly the second record in flight-number order. */
  lemma ListSecond(m: map<int, Launch>)
    requires |m.Keys| >= 2
    ensures |Ordered(m)| >= 2 && Window(Ordered(m), 1, 1) == [Ordered(m)[1]]
  {
    WindowOfSecond(Ordered(m));
  }

  lemma WindowOfSecond(all: seq<Launch>)
    requires |all| >= 2
    ensures Window(all, 1, 1) == [all[1]]
  {
    var page := Window(all, 1, 1);
    assert |page| == 1 && page[0] == all[1];
  }

  /** The second record in flight-number order has exactly one smaller stored flight number: the first's. */
  lemma SecondHasOneBefore(m: map<int, Launch>)
    requires KeyedByFlightNumber(m) && |m.Keys| >= 2
    ensures |Ordered(m)| >= 2
    ensures Ordered(m)[0].flightNumber in m && Ordered(m)[0].flightNumber < Ordered(m)[1].flightNumber
    ensures forall n :: n in m && n < Ordered(m)[1].flightNumber ==> n == Ordered(m)[0].flightNumber
  {
    var all := Ordered(m);
    OrderedRecordIsStored(m, 0);
    forall n | n in m && n < all[1].flightNumber ensures n == all[0].flightNumber {
      OrderedHasRecord(m, n);
      OnlyFirstBeforeSecond(m, all, n);
    }
  }

  lemma OnlyFirstBeforeSecond(m: map<int, Launch>, all: seq<Launch>, n: int)
    requires KeyedByFlightNumber(m) && InFlightOrder(all) && |all| >= 2
    requires n in m && n < all[1].flightNumber
    requires exists i :: 0 <= i < |all| && all[i] == m[n]
    ensures n == all[0].flightNumber
  {
    var i :| 0 <= i < |all| && all[i] == m[n];
    assert i == 0;
  }

  // ---------------------------------------------------------------------------
  // The store

  /** The launches collection, keyed by flight number. */
  class LaunchStore {
    var launches: map<int, Launch>

    ghost predicate Valid()
      reads this
    {
      KeyedByFlightNumber(launches)
    }

    constructor ()
      ensures Valid() && launches == map[]
    {
      launches := map[];
    }

    /** `findOne`: some record that matches the filter, or none when no record does. */
    method FindLaunch(filter: LaunchFilter) returns (found: Option<Launch>)
      ensures found.Some? ==> found.value in launches.Values && Matches(found.value, filter)
      ensures found.None? <==> forall n :: n in launches ==> !Matches(launches[n], filter)
    {
      if n :| n in launches && Matches(launches[n], filter) {
        found := Some(launches[n]);
      } else {
        found := None;
      }
    }

    method ExistsLaunchWithId(launchId: int) returns (present: bool)
      requires Valid()
      ensures present <==> launchId in launches
    {
      var found := FindLaunch(LaunchFilter(Some(launchId), None, None));
      present := found.Some?;
      assert launchId in launches ==> Matches(launches[launchId], LaunchFilter(Some(launchId), None, None));
    }

    /** The records ascending by flight number, the first `skip` left out, at most `limit` (0 = all). */
    method GetAllLaunches(skip: nat, limit: nat) returns (page: seq<Launch>)
      requires Valid()
      ensures InFlightOrder(page)
      ensures forall launch :: launch in page ==>
        launch.flightNumber in launches && launches[launch.flightNumber] == launch
      ensures limit > 0 ==> |page| <= limit
      ensures |page| == if skip >= |launches.Keys| then 0
                        else if limit == 0 || limit >= |launches.Keys| - skip then |launches.Keys| - skip
                        else limit
      // the page is the run of the ordered records that starts after the skipped ones
      ensures forall i :: 0 <= i < |page| ==> page[i] == Ordered(launches)[skip + i]
    {
      var all := Ordered(launches);
      page := Window(all, skip, limit);
      forall launch | launch in page
        ensures launch.flightNumber in launches && launches[launch.flightNumber] == launch
      {
        var i :| 0 <= i < |page| && page[i] == launch;
        OrderedRecordIsStored(launches, skip + i);
      }
    }

    /** `findOne().sort("-flightNumber")`: the record last in flight-number order, or the default. */
    method GetLatestFlightNumber() returns (latest: int)
      requires Valid()
      ensures latest == LatestFlightNumber(launches)
      ensures launches.Keys == {} ==> latest == DEFAULT_FLIGHT_NUMBER
      ensures launches.Keys != {} ==> latest in launches && forall n :: n in launches ==> n <= latest
    {
      var ordered := Ordered(launches);
      if |ordered| == 0 {
        latest := DEFAULT_FLIGHT_NUMBER;
        assert launches.Keys == {};
      } else {
        latest := ordered[|ordered| - 1].flightNumber;
        LastIsLatest(launches);
      }
    }

    /** Upsert keyed by flight number. */
    method SaveLaunch(launch: Launch)
      requires Valid()
      modifies this
      ensures Valid()
      ensures launches == old(launches)[launch.flightNumber := launch]
      // exactly one record has that number, and it carries the given fields
      ensures launch.flightNumber in launches && launches[launch.flightNumber] == launch
      // records with other numbers are as they were
      ensures forall n :: n != launch.flightNumber ==>
        (n in launches <==> n in old(launches)) && (n in launches ==> launches[n] == old(launches)[n])
    {
      launches := launches[launch.flightNumber := launch];
    }

    /**
     * Schedules a launch against the catalog of planet names: the target must be
     * a known planet; the launch then gets the next flight number and the
     * defaults of a new launch, whatever the caller put in those fields.
     */
    method ScheduleNewLaunch(launch: Launch, planetNames: set<string>) returns (result: Result<Launch>)
      requires Valid()
      modifies this
      ensures Valid()
      ensures result.Failure? <==> !(launch.target.Some? && launch.target.value in planetNames)
      ensures result.Failure? ==> result.error == NO_MATCHING_PLANET && launches == old(launches)
      ensures result.Success? ==>
        var scheduled := result.value;
        && scheduled.flightNumber == LatestFlightNumber(old(launches)) + 1
        && (forall n :: n in old(launches) ==> n < scheduled.flightNumber)
        && scheduled == launch.(flightNumber := scheduled.flightNumber, customers := DEFAULT_CUSTOMERS,
                                upcoming := true, success := true)
        && scheduled.flightNumber !in old(launches)
        && launches == old(launches)[scheduled.flightNumber := scheduled]
        && |launches.Keys| == |old(launches).Keys| + 1
    {
      if !(launch.target.Some? && launch.target.value in planetNames) {
        return Failure(NO_MATCHING_PLANET);
      }
      var latest := GetLatestFlightNumber();
      var newLaunch := launch.(success := true, upcoming := true, customers := DEFAULT_CUSTOMERS,
                               flightNumber := latest + 1);
      SaveLaunch(newLaunch);
      result := Success(newLaunch);
      assert launches.Keys == old(launches).Keys + {newLaunch.flightNumber};
    }

    /**
     * Sets `upcoming` and `success` to false on the record with that flight number,
     * never inserting; reports whether exactly one record was changed.
     */
    method AbortLaunchById(launchId: int) returns (aborted: bool)
      requires Valid()
      modifies this
      ensures Valid()
      ensures launches == AbortedStore(old(launches), launchId)
      ensures aborted <==> launchId in old(launches) && (old(launches)[launchId].upcoming || old(launches)[launchId].success)
      ensures aborted == AbortModifies(old(launches), launchId)
    {
      if launchId in launches {
        var current := launches[launchId];
        var updated := Aborted(current);
        launches := launches[launchId := updated];
        aborted := updated != current;
      } else {
        aborted := false;
      }
    }

    /** Maps every downloaded document to a launch record and saves it, in document order. */
    method PopulateLaunches(docs: seq<LaunchDoc>)
      requires Valid()
      modifies this
      ensures Valid()
      ensures launches == SaveAll(old(launches), docs)
    {
      for i := 0 to |docs|
        invariant Valid()
        invariant launches == SaveAll(old(launches), docs[..i])
      {
        assert docs[..i + 1][..i] == docs[..i];
        SaveLaunch(LaunchFromDoc(docs[i]));
      }
      assert docs[..|docs|] == docs;
    }

    /** Downloads the SpaceX launches only when the first of them is not stored yet. */
    method LoadLaunchesData(docs: seq<LaunchDoc>)
      requires Valid()
      modifies this
      ensures Valid()
      ensures AlreadyLoaded(old(launches)) ==> launches == old(launches)
      ensures !AlreadyLoaded(old(launches)) ==> launches == SaveAll(old(launches), docs)
    {
      var firstLaunch := FindLaunch(FIRST_LAUNCH);
      if firstLaunch.Some? {
        return;
      }
      PopulateLaunches(docs);
    }
  }
}
