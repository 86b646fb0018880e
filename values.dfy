/** Python values as they appear in the record that one sampling cycle logs.
    The record is a `dict` of `dict`s whose leaves are `int` (byte counts when
    reporting in bytes), `float` (percentages, GB figures), `str` (statuses) and
    `list` (the CPU readings). Floats are modelled as `real`: the cycle never
    computes with them, it only copies them. */
module PyValues {

  datatype Option<+T> = None | Some(value: T)

  datatype PyValue =
    | PInt(i: int)
    | PFloat(f: real)
    | PStr(s: string)
    | PList(items: seq<PyValue>)
    | PDict(entries: map<string, PyValue>)

  /** A Python list of floats, as psutil returns per-CPU readings. */
  function FloatList(xs: seq<real>): (r: seq<PyValue>)
    ensures |r| == |xs|
    ensures forall i :: 0 <= i < |xs| ==> r[i] == PFloat(xs[i])
  {
    seq(|xs|, i requires 0 <= i < |xs| => PFloat(xs[i]))
  }
}
