/**
  Resource projection (`getResources`, `getAllResources`): one candidate per row
  whose resolved resource id is non-empty, optionally followed by every resource
  fetched from the backing table, then de-duplicated by id keeping the first
  occurrence.
 */
module Resources {
  import opened Options
  import opened Text
  import opened Dataset

  /** A resource before de-duplication: id, display name and table name. */
  datatype Candidate = Candidate(id: string, title: string, etn: string)

  /** A resource as handed to the calendar. */
  datatype Resource = Resource(id: string, title: string)

  /** The resource id a row resolves to: the lookup's id in a model app, the text of the
      resource column in a canvas app; "" when the cell is empty. */
  function ResolvedId(modelApp: bool, keys: FieldKeys, row: Row): string
  {
    var cell := GetValue(row, keys.resource);
    if modelApp then (if cell.Lookup? then cell.ref.id else "") else AsText(cell)
  }

  /** The candidate one row contributes. In a model app the display name comes from the
      resource-name column when that names a linked column (it holds a '.'), otherwise
      from the lookup itself. */
  function RowCandidate(modelApp: bool, keys: FieldKeys, row: Row): (c: Option<Candidate>)
    ensures c.None? <==> ResolvedId(modelApp, keys, row) == ""
    ensures c.Some? ==> c.value.id == ResolvedId(modelApp, keys, row)
    ensures modelApp && c.Some? ==>
      && GetValue(row, keys.resource).Lookup?
      && c.value.title == (if '.' in keys.resourceName then AsText(GetValue(row, keys.resourceName))
                           else GetValue(row, keys.resource).ref.name)
      && c.value.etn == GetValue(row, keys.resource).ref.etn
    ensures !modelApp && c.Some? ==> c.value.title == AsText(GetValue(row, keys.resourceName)) && c.value.etn == ""
  {
    var cell := GetValue(row, keys.resource);
    if modelApp then
      match AsLookup(cell)
      case None => None
      case Some(ref) =>
        var title := if '.' in keys.resourceName then AsText(GetValue(row, keys.resourceName)) else ref.name;
        if ref.id == "" then None else Some(Candidate(ref.id, title, ref.etn))
    else
      var id := AsText(cell);
      if id == "" then None else Some(Candidate(id, AsText(GetValue(row, keys.resourceName)), ""))
  }

  /** The candidates of the rows, in row order. */
  function RowCandidates(modelApp: bool, keys: FieldKeys, rows: seq<Row>): (cs: seq<Candidate>)
    ensures |cs| <= |rows|
    ensures forall k :: 0 <= k < |cs| ==> cs[k].id != ""
  {
    if |rows| == 0 then []
    else
      var prefix := RowCandidates(modelApp, keys, rows[..|rows| - 1]);
      match RowCandidate(modelApp, keys, rows[|rows| - 1])
      case None => prefix
      case Some(c) => prefix + [c]
  }

  /** A candidate comes from the rows exactly when some row contributes it. */
  lemma {:induction false} RowCandidatesExact(modelApp: bool, keys: FieldKeys, rows: seq<Row>, c: Candidate)
    ensures c in RowCandidates(modelApp, keys, rows)
            <==> exists i :: 0 <= i < |rows| && RowCandidate(modelApp, keys, rows[i]) == Some(c)
  {
    if |rows| > 0 {
      var init := rows[..|rows| - 1];
      var last := RowCandidate(modelApp, keys, rows[|rows| - 1]);
      RowCandidatesExact(modelApp, keys, init, c);
      assert c in RowCandidates(modelApp, keys, rows)
             <==> c in RowCandidates(modelApp, keys, init) || last == Some(c);
      if exists i :: 0 <= i < |rows| && RowCandidate(modelApp, keys, rows[i]) == Some(c) {
        var i :| 0 <= i < |rows| && RowCandidate(modelApp, keys, rows[i]) == Some(c);
        if i < |rows| - 1 {
          assert init[i] == rows[i];
        }
      }
      if c in RowCandidates(modelApp, keys, init) {
        var i :| 0 <= i < |init| && RowCandidate(modelApp, keys, init[i]) == Some(c);
        assert rows[i] == init[i];
      }
    }
  }

  /** The column a fetched resource's display name is read from: the resource-name column
      itself, or the second '.'-separated segment of a linked one (`split('.')[1]`). */
  function FetchedNameColumn(resourceName: string): string
  {
    if '.' !in resourceName then resourceName else Split(resourceName, '.')[1]
  }

  /** A fetched record's field; a field the record lacks reads as "". */
  function Field(entity: map<string, string>, column: string): string
  {
    if column in entity then entity[column] else ""
  }

  /** The candidates `getAllResources` makes of the fetched records, in fetch order. */
  function FetchedCandidates(keys: FieldKeys, entities: seq<map<string, string>>): (cs: seq<Candidate>)
    ensures |cs| == |entities|
    ensures forall i :: 0 <= i < |cs| ==>
      cs[i] == Candidate(Field(entities[i], keys.resourceId), Field(entities[i], FetchedNameColumn(keys.resourceName)), "")
  {
    if |entities| == 0 then []
    else
      FetchedCandidates(keys, entities[..|entities| - 1])
      + [Candidate(Field(entities[|entities| - 1], keys.resourceId),
                   Field(entities[|entities| - 1], FetchedNameColumn(keys.resourceName)), "")]
  }

  /** Every candidate before de-duplication: the rows' first, then (in a model app that
      fetches every resource) the fetched ones. */
  function Candidates(modelApp: bool, keys: FieldKeys, rows: seq<Row>, entities: seq<map<string, string>>): (cs: seq<Candidate>)
    ensures |cs| <= |rows| + |entities|
    ensures var fromRows := RowCandidates(modelApp, keys, rows);
      |fromRows| <= |cs| && cs[..|fromRows|] == fromRows
    ensures !(modelApp && keys.resourceGetAllInModel) ==> forall k :: 0 <= k < |cs| ==> cs[k].id != ""
  {
    RowCandidates(modelApp, keys, rows)
    + (if modelApp && keys.resourceGetAllInModel then FetchedCandidates(keys, entities) else [])
  }

  function CandidateIds(cs: seq<Candidate>): set<string>
  {
    set k | 0 <= k < |cs| :: cs[k].id
  }

  function Ids(rs: seq<Resource>): set<string>
  {
    set k | 0 <= k < |rs| :: rs[k].id
  }

  /** Index of the first candidate with this id. */
  function FirstOf(cs: seq<Candidate>, id: string): (k: nat)
    requires id in CandidateIds(cs)
    ensures k < |cs| && cs[k].id == id
    ensures forall j :: 0 <= j < k ==> cs[j].id != id
  {
    var init := cs[..|cs| - 1];
    if id in CandidateIds(init) then
      var k := FirstOf(init, id);
      assert cs[k] == init[k];
      k
    else
      assert forall j :: 0 <= j < |init| ==> init[j].id in CandidateIds(init);
      |cs| - 1
  }

  /** First-seen de-duplication by id, as the `Map`-guarded loop does it. */
  function Distinct(cs: seq<Candidate>): (rs: seq<Resource>)
    ensures |rs| <= |cs|
    ensures |cs| >= 1 ==> |rs| >= 1
  {
    if |cs| == 0 then []
    else
      var d := Distinct(cs[..|cs| - 1]);
      var c := cs[|cs| - 1];
      if c.id in Ids(d) then d else d + [Resource(c.id, c.title)]
  }

  /** The de-duplicated ids are pairwise distinct. */
  lemma {:induction false} DistinctIdsUnique(cs: seq<Candidate>)
    ensures forall i, j :: 0 <= i < j < |Distinct(cs)| ==> Distinct(cs)[i].id != Distinct(cs)[j].id
  {
    if |cs| > 0 {
      var d := Distinct(cs[..|cs| - 1]);
      DistinctIdsUnique(cs[..|cs| - 1]);
      var c := cs[|cs| - 1];
      if c.id !in Ids(d) {
        var r := d + [Resource(c.id, c.title)];
        forall i, j | 0 <= i < j < |r| ensures r[i].id != r[j].id {
          if j == |d| {
            assert r[i].id == d[i].id && d[i].id in Ids(d);
          }
        }
      }
    }
  }

  /** An id is kept exactly when some candidate carries it. */
  lemma {:induction false} DistinctIdsExact(cs: seq<Candidate>)
    ensures Ids(Distinct(cs)) == CandidateIds(cs)
  {
    if |cs| > 0 {
      var init := cs[..|cs| - 1];
      DistinctIdsExact(init);
      var d := Distinct(init);
      var c := cs[|cs| - 1];
      assert cs == init + [c];
      assert CandidateIds(cs) == CandidateIds(init) + {c.id} by {
        forall x | x in CandidateIds(cs) ensures x in CandidateIds(init) + {c.id} {
          var k :| 0 <= k < |cs| && cs[k].id == x;
          if k < |init| { assert init[k] == cs[k]; }
        }
        forall x | x in CandidateIds(init) ensures x in CandidateIds(cs) {
          var k :| 0 <= k < |init| && init[k].id == x;
          assert cs[k] == init[k];
        }
      }
      if c.id !in Ids(d) {
        var r := d + [Resource(c.id, c.title)];
        assert Ids(r) == Ids(d) + {c.id} by {
          forall x | x in Ids(r) ensures x in Ids(d) + {c.id} {
            var k :| 0 <= k < |r| && r[k].id == x;
            if k < |d| { assert d[k] == r[k]; }
          }
          forall x | x in Ids(d) ensures x in Ids(r) {
            var k :| 0 <= k < |d| && d[k].id == x;
            assert r[k] == d[k];
          }
          assert r[|d|].id == c.id;
        }
      }
    }
  }

  /** Each kept resource carries the title of the first candidate with its id, and the
      resources come in the order of those first occurrences. */
  lemma {:induction false} DistinctFirstSeen(cs: seq<Candidate>)
    ensures Ids(Distinct(cs)) == CandidateIds(cs)
    ensures forall j :: 0 <= j < |Distinct(cs)| ==>
      Distinct(cs)[j].title == cs[FirstOf(cs, Distinct(cs)[j].id)].title
    ensures forall i, j :: 0 <= i < j < |Distinct(cs)| ==>
      FirstOf(cs, Distinct(cs)[i].id) < FirstOf(cs, Distinct(cs)[j].id)
  {
    DistinctIdsExact(cs);
    if |cs| > 0 {
      var init := cs[..|cs| - 1];
      DistinctFirstSeen(init);
      var d := Distinct(init);
      var c := cs[|cs| - 1];
      var r := Distinct(cs);
      assert forall k :: 0 <= k < |init| ==> init[k] == cs[k];
      forall j | 0 <= j < |d|
        ensures d[j].id in CandidateIds(init) && FirstOf(cs, d[j].id) == FirstOf(init, d[j].id)
      {
        assert d[j].id in Ids(d);
      }
      if c.id !in Ids(d) {
        assert r == d + [Resource(c.id, c.title)];
        assert c.id !in CandidateIds(init);
        assert FirstOf(cs, c.id) == |cs| - 1;
        forall i, j | 0 <= i < j < |r|
          ensures FirstOf(cs, r[i].id) < FirstOf(cs, r[j].id)
        {
          if j == |d| {
            assert r[i] == d[i];
          } else {
            assert r[i] == d[i] && r[j] == d[j];
          }
        }
        forall j | 0 <= j < |r| ensures r[j].title == cs[FirstOf(cs, r[j].id)].title {
          if j < |d| { assert r[j] == d[j]; }
        }
      }
    }
  }

  /** The resources of a prefix keep their places and titles when more candidates follow:
      row-derived resources therefore win over fetched ones with the same id. */
  lemma {:induction false} DistinctExtends(a: seq<Candidate>, b: seq<Candidate>)
    ensures Distinct(a) <= Distinct(a + b)
  {
    if |b| > 0 {
      var b' := b[..|b| - 1];
      assert (a + b)[..|a + b| - 1] == a + b';
      DistinctExtends(a, b');
    } else {
      assert a + b == a;
    }
  }

  /** The candidate loop of `getResources` for the rows (lines 740-767). */
  method CollectRowCandidates(modelApp: bool, keys: FieldKeys, rows: seq<Row>) returns (resources: seq<Candidate>)
    ensures resources == RowCandidates(modelApp, keys, rows)
  {
    resources := [];
    var i := 0;
    while i < |rows|
      invariant 0 <= i <= |rows|
      invariant resources == RowCandidates(modelApp, keys, rows[..i])
    {
      var row := rows[i];
      var resourceId, resourceName, resourceEtn := "", "", "";
      var cell := GetValue(row, keys.resource);
      if modelApp {
        if cell.Lookup? {
          resourceId := cell.ref.id;
          resourceName := if '.' in keys.resourceName then AsText(GetValue(row, keys.resourceName)) else cell.ref.name;
          resourceEtn := cell.ref.etn;
        }
      } else {
        resourceId := AsText(cell);
        resourceName := AsText(GetValue(row, keys.resourceName));
      }
      assert rows[..i + 1][..i] == rows[..i];
      i := i + 1;
      if resourceId == "" {
        continue;
      }
      resources := resources + [Candidate(resourceId, resourceName, resourceEtn)];
    }
    assert rows[..|rows|] == rows;
  }

  /** `getAllResources`: appends a candidate per fetched record to `resources`. */
  method AppendAllResources(resources: seq<Candidate>, keys: FieldKeys, entities: seq<map<string, string>>)
    returns (all: seq<Candidate>)
    ensures all == resources + FetchedCandidates(keys, entities)
  {
    var nameColumn := FetchedNameColumn(keys.resourceName);
    all := resources;
    for i := 0 to |entities|
      invariant all == resources + FetchedCandidates(keys, entities[..i])
    {
      assert entities[..i + 1][..i] == entities[..i];
      all := all + [Candidate(Field(entities[i], keys.resourceId), Field(entities[i], nameColumn), "")];
    }
    assert entities[..|entities|] == entities;
  }

  /** The de-duplication loop of `getResources` (lines 773-783). */
  method DistinctResources(resources: seq<Candidate>) returns (distinct: seq<Resource>)
    ensures distinct == Distinct(resources)
  {
    distinct := [];
    var seen: map<string, bool> := map[];
    for i := 0 to |resources|
      invariant distinct == Distinct(resources[..i])
      invariant seen.Keys == Ids(distinct)
    {
      var item := resources[i];
      assert resources[..i + 1][..i] == resources[..i];
      if item.id !in seen {
        seen := seen[item.id := true];
        ghost var d := distinct;
        distinct := distinct + [Resource(item.id, item.title)];
        assert Ids(distinct) == Ids(d) + {item.id} by {
          assert distinct[|d|].id == item.id;
          forall x | x in Ids(distinct) ensures x in Ids(d) + {item.id} {
            var k :| 0 <= k < |distinct| && distinct[k].id == x;
            if k < |d| { assert d[k] == distinct[k]; }
          }
          forall x | x in Ids(d) ensures x in Ids(distinct) {
            var k :| 0 <= k < |d| && d[k].id == x;
            assert distinct[k] == d[k];
          }
        }
      }
    }
    assert resources[..|resources|] == resources;
  }

  /** `getResources`: undefined (None) when no resource column is configured, otherwise
      the de-duplicated candidates of the rows and, when fetched, of every resource. */
  method GetResources(modelApp: bool, keys: FieldKeys, rows: seq<Row>, entities: seq<map<string, string>>)
    returns (resources: Option<seq<Resource>>)
    ensures resources.None? <==> keys.resource == ""
    ensures resources.Some? ==> resources.value == Distinct(Candidates(modelApp, keys, rows, entities))
  {
    if keys.resource == "" {
      return None;
    }
    var candidates := CollectRowCandidates(modelApp, keys, rows);
    if modelApp && keys.resourceGetAllInModel {
      candidates := AppendAllResources(candidates, keys, entities);
    } else {
      assert candidates == candidates + [];
    }
    var distinct := DistinctResources(candidates);
    resources := Some(distinct);
  }

  /** The ids of a concatenation are the ids of its parts. */
  lemma CandidateIdsAppend(a: seq<Candidate>, b: seq<Candidate>)
    ensures CandidateIds(a + b) == CandidateIds(a) + CandidateIds(b)
  {
    var ab := a + b;
    forall x | x in CandidateIds(ab) ensures x in CandidateIds(a) + CandidateIds(b) {
      var k :| 0 <= k < |ab| && ab[k].id == x;
      if k < |a| { assert ab[k] == a[k]; } else { assert ab[k] == b[k - |a|]; }
    }
    forall x | x in CandidateIds(a) + CandidateIds(b) ensures x in CandidateIds(ab) {
      if x in CandidateIds(a) {
        var k :| 0 <= k < |a| && a[k].id == x;
        assert ab[k] == a[k];
      } else {
        var k :| 0 <= k < |b| && b[k].id == x;
        assert ab[|a| + k] == b[k];
      }
    }
  }

  /** An id comes from the rows exactly when some row resolves to it and it is not "". */
  lemma RowCandidateIds(modelApp: bool, keys: FieldKeys, rows: seq<Row>, x: string)
    ensures x in CandidateIds(RowCandidates(modelApp, keys, rows)) <==>
      exists i :: 0 <= i < |rows| && ResolvedId(modelApp, keys, rows[i]) == x && x != ""
  {
    var rc := RowCandidates(modelApp, keys, rows);
    if x in CandidateIds(rc) {
      var k :| 0 <= k < |rc| && rc[k].id == x;
      RowCandidatesExact(modelApp, keys, rows, rc[k]);
      var i :| 0 <= i < |rows| && RowCandidate(modelApp, keys, rows[i]) == Some(rc[k]);
      assert ResolvedId(modelApp, keys, rows[i]) == x;
    }
    if exists i :: 0 <= i < |rows| && ResolvedId(modelApp, keys, rows[i]) == x && x != "" {
      var i :| 0 <= i < |rows| && ResolvedId(modelApp, keys, rows[i]) == x && x != "";
      var c := RowCandidate(modelApp, keys, rows[i]).value;
      RowCandidatesExact(modelApp, keys, rows, c);
      var k :| 0 <= k < |rc| && rc[k] == c;
    }
  }

  /** What the resource list holds: pairwise distinct ids; an id is listed exactly when
      some row resolves to it (never "") or, when every resource is fetched, some fetched
      record carries it; and the resources of the rows come first, in the same order and
      with the same titles, whatever was fetched. */
  lemma ResourcesOfRows(modelApp: bool, keys: FieldKeys, rows: seq<Row>, entities: seq<map<string, string>>)
    ensures var rs := Distinct(Candidates(modelApp, keys, rows, entities));
      && (forall i, j :: 0 <= i < j < |rs| ==> rs[i].id != rs[j].id)
      && (forall x :: x in Ids(rs) <==>
            (exists i :: 0 <= i < |rows| && ResolvedId(modelApp, keys, rows[i]) == x && x != "")
            || (modelApp && keys.resourceGetAllInModel && x in CandidateIds(FetchedCandidates(keys, entities))))
      && Distinct(RowCandidates(modelApp, keys, rows)) <= rs
  {
    var rc := RowCandidates(modelApp, keys, rows);
    var fc := if modelApp && keys.resourceGetAllInModel then FetchedCandidates(keys, entities) else [];
    var cs := Candidates(modelApp, keys, rows, entities);
    assert cs == rc + fc;
    DistinctIdsUnique(cs);
    DistinctIdsExact(cs);
    DistinctExtends(rc, fc);
    CandidateIdsAppend(rc, fc);
    forall x ensures x in CandidateIds(rc) <==>
      exists i :: 0 <= i < |rows| && ResolvedId(modelApp, keys, rows[i]) == x && x != ""
    {
      RowCandidateIds(modelApp, keys, rows, x);
    }
  }
}
