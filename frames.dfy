/**
 * A one-row pandas DataFrame, reduced to what the predict handler uses: the
 * column labels in their order and the single row's cell under each label.
 * Three DataFrame operations are modelled: building a frame from one dict
 * record, assigning a column (`df[label] = v`) and selecting a list of
 * columns (`df[labels]`).
 */
module Frames {
  import opened Wrappers

  /** A cell: a float column (the slider readings) or an integer column (indicators, codes, zero fill). */
  datatype Value = Float(x: real) | Int(n: int)

  /** The column labels in display order and the row's cell under each label. */
  datatype Frame = Frame(columns: seq<string>, values: map<string, Value>)

  /** The error `df[labels]` raises (a KeyError) when some requested labels are not columns. */
  datatype KeyError = KeyError(missing: set<string>)

  predicate Distinct(s: seq<string>)
  {
    forall i, j :: 0 <= i < j < |s| ==> s[i] != s[j]
  }

  /** A frame as pandas builds one from a record: no label twice, and a cell under exactly the labels. */
  ghost predicate Valid(fr: Frame)
  {
    Distinct(fr.columns) && forall k :: k in fr.values <==> k in fr.columns
  }

  /** The labels of a dict literal's entries, in the order they are written. */
  function Labels(entries: seq<(string, Value)>): (ls: seq<string>)
    ensures |ls| == |entries|
    ensures forall i :: 0 <= i < |entries| ==> ls[i] == entries[i].0
  {
    if entries == [] then [] else Labels(entries[..|entries| - 1]) + [entries[|entries| - 1].0]
  }

  /**
   * `df[name] = v` on a one-row frame: an existing column keeps its place and
   * takes the new cell; a new label is appended as the last column.
   */
  function Assign(fr: Frame, name: string, v: Value): (r: Frame)
    requires Valid(fr)
    ensures Valid(r)
    ensures name in fr.columns ==> r.columns == fr.columns
    ensures name !in fr.columns ==> r.columns == fr.columns + [name]
    ensures forall k :: k in r.values <==> k in fr.values || k == name
    ensures r.values[name] == v
    ensures forall k :: k in fr.values && k != name ==> r.values[k] == fr.values[k]
  {
    if name in fr.columns then Frame(fr.columns, fr.values[name := v])
    else Frame(fr.columns + [name], fr.values[name := v])
  }

  /**
   * `pd.DataFrame([record])` where the dict literal `record` is given by its
   * entries in source order, assigned one after another.
   */
  function FromRecord(entries: seq<(string, Value)>): (fr: Frame)
    ensures Valid(fr)
    ensures forall k :: k in fr.values <==> k in Labels(entries)
    decreases |entries|
  {
    if entries == [] then Frame([], map[])
    else
      var n := |entries| - 1;
      Assign(FromRecord(entries[..n]), entries[n].0, entries[n].1)
  }

  lemma DistinctSnoc(s: seq<string>, x: string)
    requires Distinct(s + [x])
    ensures Distinct(s) && x !in s
  {
    var t := s + [x];
    forall i, j | 0 <= i < j < |s| ensures s[i] != s[j] {
      assert t[i] != t[j];
    }
    forall i | 0 <= i < |s| ensures s[i] != x {
      assert t[i] != t[|s|];
    }
  }

  /** A record whose keys are all different becomes a frame with those keys as columns, in order, and each entry's value as its cell. */
  lemma {:induction false} FromRecordOfDistinct(entries: seq<(string, Value)>)
    requires Distinct(Labels(entries))
    ensures FromRecord(entries).columns == Labels(entries)
    ensures forall i :: 0 <= i < |entries| ==>
      entries[i].0 in FromRecord(entries).values && FromRecord(entries).values[entries[i].0] == entries[i].1
  {
    if entries != [] {
      var n := |entries| - 1;
      var prefix := entries[..n];
      var last := entries[n];
      assert Labels(entries) == Labels(prefix) + [last.0];
      DistinctSnoc(Labels(prefix), last.0);
      FromRecordOfDistinct(prefix);
      forall i | 0 <= i < n
        ensures entries[i].0 in FromRecord(entries).values && FromRecord(entries).values[entries[i].0] == entries[i].1
      {
        assert prefix[i] == entries[i];
      }
    }
  }

  /**
   * `df[names]`: a new frame whose columns are `names`, in that order, each
   * with the cell the frame holds under it; a KeyError naming the labels
   * that are not columns when there are any.
   */
  function Select(fr: Frame, names: seq<string>): (r: Result<Frame, KeyError>)
    ensures r.Ok? <==> forall k :: k in names ==> k in fr.values
    ensures r.Ok? ==> r.value.columns == names
    ensures r.Ok? ==> forall k :: k in r.value.values <==> k in names
    ensures r.Ok? ==> forall k :: k in r.value.values ==> k in fr.values && r.value.values[k] == fr.values[k]
    ensures r.Err? ==> r.error.missing != {}
    ensures r.Err? ==> forall k :: k in r.error.missing <==> k in names && k !in fr.values
  {
    if forall k :: k in names ==> k in fr.values then Ok(Frame(names, map k | k in names :: fr.values[k]))
    else
      var missing := set k | k in names && k !in fr.values;
      assert exists k :: k in names && k !in fr.values && k in missing;
      Err(KeyError(missing))
  }
}
