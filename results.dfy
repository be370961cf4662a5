/** Outcomes of the decoder: a value, or the exception that ends the whole run. */
module Results {

  datatype Option<+T> = None | Some(value: T)

  /** Every way the decoder stops with an exception instead of a result. */
  datatype Error =
      /** the assertion guarding a FAT lookup: entry offset not inside (0, sectors_per_fat) */
    | FatIndexOutOfRange(number: int)
      /** the assertion on a directory entry's first cluster: it exceeds the cluster count */
    | ClusterOutOfRange(cluster: nat)
      /** total_sectors / sectors_per_cluster with sectors_per_cluster == 0 */
    | DivisionByZero
      /** seeking the image to a negative byte offset */
    | NegativeSeek(offset: int)
      /** indexing byte 11 of a directory record cut short by the end of the directory's data */
    | EntryTruncated(directory: int, entryNum: nat)
      /** a cluster chain that never reaches an end-of-chain entry: the source loops forever */
    | EndlessChain(number: int)
      /** subdirectories nested deeper than the interpreter's recursion limit */
    | RecursionLimit(cluster: nat)

  datatype Result<+T> = Ok(value: T) | Err(error: Error) {
    predicate IsFailure() {
      Err?
    }

    function PropagateFailure<U>(): Result<U>
      requires Err?
    {
      Err(error)
    }

    function Extract(): T
      requires Ok?
    {
      value
    }
  }

  /** A result whose sequence, when there is one, follows `prefix`: what a run that has already
      collected `prefix` returns when its remaining work yields `r`. */
  function Then<T>(prefix: seq<T>, r: Result<seq<T>>): Result<seq<T>> {
    match r
    case Ok(rest) => Ok(prefix + rest)
    case Err(e) => Err(e)
  }

  /** Collecting `a` and then `b` in front of a result is collecting `a + b`. */
  lemma ThenThen<T>(a: seq<T>, b: seq<T>, r: Result<seq<T>>)
    ensures Then(a, Then(b, r)) == Then(a + b, r)
  {
    if r.Ok? {
      assert a + (b + r.value) == (a + b) + r.value;
    }
  }

  lemma ThenNothing<T>(r: Result<seq<T>>)
    ensures Then([], r) == r
  {
    if r.Ok? {
      assert [] + r.value == r.value;
    }
  }
}
