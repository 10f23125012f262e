/** A value that may be absent: Python's `None`-or-value results and nullable columns. */
module Options {

  datatype Option<+T> = None | Some(value: T)

  /** The present values of `os`, in order: a loop that appends only when a value is produced. */
  function Somes<T>(os: seq<Option<T>>): seq<T> {
    if |os| == 0 then []
    else (if os[0].Some? then [os[0].value] else []) + Somes(os[1..])
  }

  /**
   Each present value sits in `Somes(os)` at its rank, the number of values
   present before it: so every one is kept, once, in order.
   */
  lemma {:induction false} SomesRank<T>(os: seq<Option<T>>)
    ensures forall j :: 0 <= j < |os| && os[j].Some? ==>
              |Somes(os[..j])| < |Somes(os)| && Somes(os)[|Somes(os[..j])|] == os[j].value
  {
    if |os| > 0 {
      var h := if os[0].Some? then [os[0].value] else [];
      var t := Somes(os[1..]);
      assert forall j :: 0 <= j < |os[1..]| && os[1..][j].Some? ==>
               |Somes(os[1..][..j])| < |t| && t[|Somes(os[1..][..j])|] == os[1..][j].value by {
        SomesRank(os[1..]);
      }
      forall j | 0 <= j < |os| && os[j].Some?
        ensures |Somes(os[..j])| < |Somes(os)| && Somes(os)[|Somes(os[..j])|] == os[j].value
      {
        if j == 0 {
          assert os[..0] == [];
        } else {
          SomesPrefixStep(os, j);
          assert os[1..][j - 1] == os[j];
        }
      }
    }
  }

  /** A non-empty prefix contributes its head's value, then the values of the tail's prefix. */
  lemma SomesPrefixStep<T>(os: seq<Option<T>>, j: int)
    requires 0 < j <= |os|
    ensures Somes(os[..j]) == (if os[0].Some? then [os[0].value] else []) + Somes(os[1..][..j - 1])
    ensures Somes(os) == (if os[0].Some? then [os[0].value] else []) + Somes(os[1..])
  {
    assert os[..j][0] == os[0] && os[..j][1..] == os[1..][..j - 1];
  }
}
