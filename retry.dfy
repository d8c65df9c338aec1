/**
  The retry discipline shared by the two status queries (main.go:48-58 and
  main.go:136-146): at most `Tries` attempts, stopping at the first answer,
  with a 250 ms sleep after every failed attempt except the last.

  The network is an oracle: `replies[i]` is what the query collaborator
  returns on the i-th attempt.
*/
module Retry {

  /** What one attempt of a status query returns. */
  datatype Reply<+T> = Failed(message: string) | Answered(value: T)

  /** `const TRIES = 3` of both loops. */
  const Tries: nat := 3

  /** The pause between failed attempts, `time.Millisecond * 250`; only counted in the model. */
  const SleepMillis: nat := 250

  /**
    Number of attempts a retry loop makes: attempts before the last one all
    failed, and the loop stops either at an answer or after `Tries` attempts.
  */
  function AttemptsUsed<T>(replies: seq<Reply<T>>): (n: nat)
    requires |replies| >= Tries
    ensures 1 <= n <= Tries
    ensures forall j :: 0 <= j < n - 1 ==> replies[j].Failed?
    ensures replies[n - 1].Answered? || n == Tries
  {
    AttemptsFrom(replies, 0)
  }

  /** `AttemptsUsed`, once the first `i` attempts are known to have failed. */
  function AttemptsFrom<T>(replies: seq<Reply<T>>, i: nat): (n: nat)
    requires i < Tries <= |replies|
    requires forall j :: 0 <= j < i ==> replies[j].Failed?
    ensures i < n <= Tries
    ensures forall j :: 0 <= j < n - 1 ==> replies[j].Failed?
    ensures replies[n - 1].Answered? || n == Tries
    decreases Tries - i
  {
    if replies[i].Answered? || i == Tries - 1 then i + 1 else AttemptsFrom(replies, i + 1)
  }

  /** The attempt count is determined by the replies: the first answer, or all `Tries`. */
  lemma AttemptsUsedFirstAnswer<T>(replies: seq<Reply<T>>, k: nat)
    requires |replies| >= Tries && k < Tries
    requires replies[k].Answered?
    requires forall j :: 0 <= j < k ==> replies[j].Failed?
    ensures AttemptsUsed(replies) == k + 1
  {
  }

  /** When every attempt fails, the loop makes exactly `Tries` attempts. */
  lemma AttemptsUsedAllFail<T>(replies: seq<Reply<T>>)
    requires |replies| >= Tries
    requires forall j :: 0 <= j < Tries ==> replies[j].Failed?
    ensures AttemptsUsed(replies) == Tries
  {
  }
}
