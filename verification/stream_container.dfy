/** `StreamContainer` (soltrade/datastructures.py:335-361): the columns
    of a price frame, each a series, looked up by alias. A pandas frame
    becomes its row timestamps and its labelled columns. */
module StreamContainer {
  import opened Python

  /** A frame: the row index and the columns `(label, values)` in order. */
  datatype Frame = Frame(index: seq<int>, columns: seq<(string, seq<real>)>)

  datatype Container = Container(unixtime: seq<int>, streams: map<string, seq<real>>)

  function Labels(f: Frame): (ls: seq<string>)
    ensures |ls| == |f.columns|
    ensures forall j :: 0 <= j < |ls| ==> ls[j] == f.columns[j].0
  {
    seq(|f.columns|, j requires 0 <= j < |f.columns| => f.columns[j].0)
  }

  /** The label occurs more than once among the frame's columns. */
  predicate Duplicated(ls: seq<string>, j: nat)
    requires j < |ls|
  {
    exists i :: 0 <= i < |ls| && i != j && ls[i] == ls[j]
  }

  /** `j` is the last position at which `as[j]` occurs. */
  ghost predicate LastOccurrence(as_: seq<string>, j: int) {
    0 <= j < |as_| && forall i :: j < i < |as_| ==> as_[i] != as_[j]
  }

  /** The last position at which `a` occurs. */
  function LastIndex(as_: seq<string>, a: string): (r: nat)
    requires a in as_
    ensures r < |as_| && as_[r] == a
    ensures forall i :: r < i < |as_| ==> as_[i] != a
  {
    var n := |as_| - 1;
    if as_[n] == a then n
    else
      assert a in as_[..n] by {
        var i :| 0 <= i < |as_| && as_[i] == a;
        assert as_[..n][i] == a;
      }
      LastIndex(as_[..n], a)
  }

  /** The loop at lines 351-352: assign each column to its alias in turn,
      so a repeated alias keeps the last column given to it. */
  function Assign(as_: seq<string>, cs: seq<seq<real>>): (m: map<string, seq<real>>)
    requires |as_| == |cs|
    ensures m.Keys == set a | a in as_
    ensures forall j :: LastOccurrence(as_, j) ==> m[as_[j]] == cs[j]
  {
    var m := map a | a in as_ :: cs[LastIndex(as_, a)];
    assert forall j :: LastOccurrence(as_, j) ==> LastIndex(as_, as_[j]) == j;
    m
  }

  /** `StreamContainer.__init__` (lines 338-352). Without an alias list
      the column labels serve as aliases; an alias list of the wrong
      length raises `ValueError`. Selecting a label that more than one
      column carries yields a frame rather than a series, which `Stream`
      rejects with `ValueError`. */
  function New(f: Frame, aliases: Option<seq<string>>): (r: Result<Container>)
    ensures var as_ := aliases.GetOr(Labels(f));
      && (r.Failure? <==>
           |as_| != |f.columns| || exists j :: 0 <= j < |f.columns| && Duplicated(Labels(f), j))
      && (r.Failure? ==> r.error == ValueError)
      && (r.Success? ==>
           && r.value.unixtime == f.index
           && r.value.streams.Keys == (set a | a in as_)
           && forall j :: LastOccurrence(as_, j) ==> r.value.streams[as_[j]] == f.columns[j].1)
  {
    var ls := Labels(f);
    var as_ := aliases.GetOr(ls);
    if |as_| != |f.columns| then Failure(ValueError)
    else if exists j :: 0 <= j < |f.columns| && Duplicated(ls, j) then Failure(ValueError)
    else
      var cs := seq(|f.columns|, j requires 0 <= j < |f.columns| => f.columns[j].1);
      Success(Container(f.index, Assign(as_, cs)))
  }

  /** With the labels as aliases every column is found under its own
      label. */
  lemma LabelsAreAliases(f: Frame)
    requires New(f, None).Success?
    ensures forall j :: 0 <= j < |f.columns| ==>
      f.columns[j].0 in New(f, None).value.streams &&
      New(f, None).value.streams[f.columns[j].0] == f.columns[j].1
  {
    var ls := Labels(f);
    forall j | 0 <= j < |f.columns|
      ensures LastOccurrence(ls, j)
    {
      assert !Duplicated(ls, j);
    }
  }

  /** `__getattr__` (lines 354-358): a missing alias raises
      `AttributeError`. */
  function GetAttr(c: Container, name: string): (r: Result<seq<real>>)
    ensures r.Success? <==> name in c.streams
    ensures r.Success? ==> r.value == c.streams[name]
    ensures r.Failure? ==> r.error == AttributeError
  {
    if name in c.streams then Success(c.streams[name]) else Failure(AttributeError)
  }

  /** `__getitem__` (lines 360-361): a missing alias raises `KeyError`. */
  function GetItem(c: Container, key: string): (r: Result<seq<real>>)
    ensures r.Success? <==> key in c.streams
    ensures r.Success? ==> r.value == c.streams[key]
    ensures r.Failure? ==> r.error == KeyError
  {
    if key in c.streams then Success(c.streams[key]) else Failure(KeyError)
  }

  /** `__getattr__` and `__getitem__` find the same series under the same
      alias, and differ only in the exception for a missing one. Python
      calls `__getattr__` only after ordinary attribute lookup fails, so an
      alias named `unixtime` or `streams` is shadowed on attribute access;
      `GetAttr` models the `__getattr__` fallback alone. */
  lemma LookupsAgree(c: Container, name: string)
    ensures GetAttr(c, name).Success? <==> GetItem(c, name).Success?
    ensures GetAttr(c, name).Success? ==> GetAttr(c, name).value == GetItem(c, name).value
    ensures GetAttr(c, name).Failure? ==> GetAttr(c, name).error != GetItem(c, name).error
  {
  }
}
