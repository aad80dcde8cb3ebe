/**
 * Facts about the shape of sequences, kept apart so that the proofs that use
 * them do not have to rediscover them next to recursive definitions.
 */
module SeqShapes {

  lemma SplitAt<T>(t: seq<T>, k: nat)
    requires k < |t|
    ensures t == t[..k] + [t[k]] + t[k + 1..]
  {
  }

  lemma HeadTail<T>(t: seq<T>)
    requires t != []
    ensures t == [t[0]] + t[1..]
  {
  }
}
