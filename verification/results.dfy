/** Optional values and results with an error, standing for PHP's `null` returns and
    exceptions, and three facts about sequences used throughout. */
module Results {

  datatype Option<+T> = None | Some(value: T)

  datatype Result<+T, +E> = Ok(value: T) | Err(error: E)

  /** The prefix of a sequence up to its length is the sequence. */
  lemma WholePrefix<T>(s: seq<T>)
    ensures s[..|s|] == s
  {
  }

  /** A sequence is what comes before position `i`, the element there, and the rest. */
  lemma SplitAround<T>(s: seq<T>, i: nat)
    requires i < |s|
    ensures s == s[..i] + [s[i]] + s[i + 1..]
  {
  }

  lemma ConcatAssoc<T>(a: seq<T>, b: seq<T>, c: seq<T>)
    ensures a + (b + c) == (a + b) + c
  {
  }
}
