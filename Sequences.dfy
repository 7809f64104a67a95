/** Facts about slicing a concatenation, proved where no other definition is in sight. */
module Sequences {
  /** Dropping the first part of a concatenation leaves the second. */
  lemma DropAppended<T>(a: seq<T>, b: seq<T>)
    ensures (a + b)[|a|..] == b
  {
  }

  /** Taking the length of the first part of a concatenation gives the first part. */
  lemma TakeAppended<T>(a: seq<T>, b: seq<T>)
    ensures (a + b)[..|a|] == a
  {
  }

  /** A non-empty sequence is its head followed by its tail. */
  lemma HeadTail<T>(s: seq<T>)
    requires s != []
    ensures [s[0]] + s[1..] == s
  {
  }

  /** Nothing is left after dropping everything. */
  lemma DropAll<T>(s: seq<T>)
    ensures s[|s|..] == []
  {
  }

  /** Two adjacent slices from the front join into one. */
  lemma TakeJoin<T>(s: seq<T>, i: nat, j: nat)
    requires i <= j <= |s|
    ensures s[..i] + s[i..j] == s[..j]
  {
  }

  /** The first `n` elements after position `i` are the slice from `i` to `i + n`. */
  lemma TakeOfDrop<T>(s: seq<T>, i: nat, n: nat)
    requires i + n <= |s|
    ensures s[i..][..n] == s[i..i + n]
  {
  }

  /** Overwriting the whole of `b` with the front of `a` leaves that front. */
  lemma OverwriteAll<T>(a: seq<T>, b: seq<T>)
    requires |b| <= |a|
    ensures a[..|b|] + b[|b|..] == a[..|b|]
  {
  }

  /** A prefix, taken whole, followed by the rest is the sequence again. */
  lemma PrefixThenRest<T>(s: seq<T>, i: nat)
    requires i <= |s|
    ensures s[..i][..i] + s[i..] == s
  {
  }

  /** Two singletons joined are the pair. */
  lemma TwoSingletons<T>(x: T, y: T)
    ensures [x] + [y] == [x, y]
  {
  }

  /** A sequence is its first `i` elements followed by the rest. */
  lemma TakeDrop<T>(s: seq<T>, i: nat)
    requires i <= |s|
    ensures s[..i] + s[i..] == s
  {
  }

  /** Taking from a prefix is taking from the sequence. */
  lemma TakeOfTake<T>(s: seq<T>, i: nat, j: nat)
    requires i <= j <= |s|
    ensures s[..j][..i] == s[..i]
  {
  }

  /** Dropping from a prefix is slicing the sequence. */
  lemma DropOfTake<T>(s: seq<T>, i: nat, j: nat)
    requires i <= j <= |s|
    ensures s[..j][i..] == s[i..j]
  {
  }

  /** Dropping twice is dropping the sum. */
  lemma DropOfDrop<T>(s: seq<T>, i: nat, j: nat)
    requires i + j <= |s|
    ensures s[i..][j..] == s[i + j..]
  {
  }

  /** Appending three parts one at a time is appending them joined. */
  lemma AppendThree<T>(a: seq<T>, b: seq<T>, c: seq<T>, d: seq<T>)
    ensures a + b + c + d == a + (b + c + d)
  {
  }

  /** Appending two parts one at a time is appending them joined. */
  lemma AppendTwo<T>(a: seq<T>, b: seq<T>, c: seq<T>)
    ensures a + b + c == a + (b + c)
  {
  }

  /** Appending an element and then dropping the head is dropping the head first. */
  lemma TailOfAppend<T>(s: seq<T>, x: T)
    requires s != []
    ensures (s + [x])[0] == s[0] && (s + [x])[1..] == s[1..] + [x]
  {
  }

  /** A non-empty sequence is everything but its last element followed by that element. */
  lemma InitLast<T>(s: seq<T>)
    requires s != []
    ensures s[..|s| - 1] + [s[|s| - 1]] == s
  {
  }
}
