/**
 * The header of `dump_dict_to_csv`: start from the eight baseline column
 * names, extend the list with the keys of every row, and deduplicate by
 * passing through a set. A set has no order of its own, so the order of
 * the header is left open; what is fixed is which names it holds.
 */
module CsvHeader {
  import opened Text
  import Batch

  /** The baseline column names, in the order they are listed. */
  const FIELDNAMES: seq<string> := [
    "Name", "Email", "Phone Number", "Skills", "Locations", "Degree",
    "Educational Institute", "Experience"
  ]

  /** The keys of the rows before position `n`. */
  ghost function RowKeys(rows: seq<Batch.Record>, n: nat): (keys: set<string>)
    requires n <= |rows|
    ensures forall k :: k in keys <==> exists i :: 0 <= i < n && k in rows[i]
    decreases n
  {
    if n == 0 then {} else RowKeys(rows, n - 1) + rows[n - 1].Keys
  }

  /** Every name the header must hold. */
  ghost function HeaderNames(rows: seq<Batch.Record>): set<string> {
    Elements(FIELDNAMES) + RowKeys(rows, |rows|)
  }

  method CsvFieldnames(rows: seq<Batch.Record>) returns (fieldnames: seq<string>)
    ensures NoDuplicates(fieldnames)
    ensures Elements(fieldnames) == HeaderNames(rows)
    ensures |fieldnames| == |HeaderNames(rows)|
    ensures forall i, k :: 0 <= i < |rows| && k in rows[i] ==> k in fieldnames
  {
    var names := FIELDNAMES;
    for i := 0 to |rows|
      invariant Elements(names) == Elements(FIELDNAMES) + RowKeys(rows, i)
    {
      names := Extend(names, rows[i].Keys);
    }
    fieldnames := ListOfSet(Elements(names));
    DistinctCardinality(fieldnames);
    HeaderCoversRows(rows, fieldnames);
  }

  /** A list holding every header name holds every key of every row. */
  lemma HeaderCoversRows(rows: seq<Batch.Record>, fieldnames: seq<string>)
    requires Elements(fieldnames) == HeaderNames(rows)
    ensures forall i, k :: 0 <= i < |rows| && k in rows[i] ==> k in fieldnames
  {
    forall i, k | 0 <= i < |rows| && k in rows[i]
      ensures k in fieldnames
    {
      assert k in RowKeys(rows, |rows|);
      assert k in Elements(fieldnames);
    }
  }

  /** `list.extend` with the keys of a dictionary, taken in some order. */
  method Extend(names: seq<string>, keys: set<string>) returns (extended: seq<string>)
    ensures |extended| == |names| + |keys|
    ensures extended[..|names|] == names
    ensures Elements(extended) == Elements(names) + keys
    ensures multiset(extended[|names|..]) == multiset(keys)
  {
    extended := names;
    var rest := keys;
    while rest != {}
      invariant rest <= keys
      invariant |extended| + |rest| == |names| + |keys|
      invariant extended[..|names|] == names
      invariant Elements(extended) + rest == Elements(names) + keys
      invariant multiset(extended[|names|..]) + multiset(rest) == multiset(keys)
      decreases |rest|
    {
      var k :| k in rest;
      assert (extended + [k])[|names|..] == extended[|names|..] + [k];
      assert multiset(rest) == multiset(rest - {k}) + multiset{k};
      extended := extended + [k];
      rest := rest - {k};
    }
  }

  /** `list(set(...))`: the elements of a set, each once, in some order. */
  method ListOfSet(unique: set<string>) returns (list: seq<string>)
    ensures NoDuplicates(list)
    ensures Elements(list) == unique
  {
    list := [];
    var rest := unique;
    while rest != {}
      invariant NoDuplicates(list)
      invariant Elements(list) + rest == unique
      invariant forall x :: x in rest ==> x !in list
      decreases |rest|
    {
      var x :| x in rest;
      list := list + [x];
      rest := rest - {x};
    }
  }

  /** The record keys of the batch are exactly the baseline names. */
  lemma RecordFieldsAreBaseline()
    ensures Batch.RecordFields == Elements(FIELDNAMES)
  {
  }

  /** The eight baseline names are distinct. */
  lemma BaselineCount()
    ensures NoDuplicates(FIELDNAMES) && |Elements(FIELDNAMES)| == 8
  {
    DistinctCardinality(FIELDNAMES);
  }

  /** Rows whose keys all lie in `fields` contribute no other key. */
  lemma {:induction false} RowKeysWithin(rows: seq<Batch.Record>, n: nat, fields: set<string>)
    requires n <= |rows|
    requires forall i :: 0 <= i < n ==> rows[i].Keys <= fields
    ensures RowKeys(rows, n) <= fields
    decreases n
  {
    if n > 0 {
      RowKeysWithin(rows, n - 1, fields);
    }
  }

  /** For rows produced by the batch, the header is the eight baseline
      names and nothing else. */
  lemma ResumeRowsHeader(rows: seq<Batch.Record>)
    requires forall i :: 0 <= i < |rows| ==> rows[i].Keys == Batch.RecordFields
    ensures HeaderNames(rows) == Elements(FIELDNAMES)
    ensures |HeaderNames(rows)| == 8
  {
    assert HeaderNames(rows) == Elements(FIELDNAMES) by {
      RecordFieldsAreBaseline();
      RowKeysWithin(rows, |rows|, Elements(FIELDNAMES));
    }
    BaselineCount();
  }
}
