// The shape of the client's poll loop (Client.cpp, main), apart from the
// reply format: each round reads the reply at the front of the stream,
// tests it, and either stops or goes on with what is left. The client's
// Polling and AfterAcks are these loops with its own exit test and reader
// (Client.PollingIsRounds, Client.AfterAcksIsSkip).
module PollLoop {
  import opened Host

  /** How a poll loop stopped after at most `attempts` rounds: whether it
      saw the exit test pass, how many rounds it ran (one STATUS request
      each), and how many bytes of the stream it took. */
  datatype PollOutcome = PollOutcome(done: bool, polls: nat, used: nat)

  /** The loop over an exit test `pass` and a reader that takes `take(t)`
      bytes off a stream t. */
  function Rounds<T(!new)>(pass: seq<T> -> bool, take: seq<T> -> nat, s: seq<T>, attempts: nat): (r: PollOutcome)
    requires forall t :: take(t) <= |t|
    ensures r.polls <= attempts && r.used <= |s|
    ensures r.done ==> 1 <= r.polls
    ensures !r.done ==> r.polls == attempts
    decreases attempts
  {
    if attempts == 0 then PollOutcome(false, 0, 0)
    else if pass(s) then PollOutcome(true, 1, take(s))
    else
      var q := Rounds(pass, take, s[take(s)..], attempts - 1);
      PollOutcome(q.done, q.polls + 1, take(s) + q.used)
  }

  /** What is left of `s` once `n` replies have been read off it. */
  function Skip<T(!new)>(take: seq<T> -> nat, s: seq<T>, n: nat): (r: seq<T>)
    requires forall t :: take(t) <= |t|
    ensures |r| <= |s|
    decreases n
  {
    if n == 0 then s else Skip(take, s[take(s)..], n - 1)
  }

  /** Reading replies off a stream leaves one of its suffixes. */
  lemma {:induction false} SkipIsSuffix<T(!new)>(take: seq<T> -> nat, s: seq<T>, n: nat)
    requires forall t :: take(t) <= |t|
    ensures Skip(take, s, n) == s[|s| - |Skip(take, s, n)|..]
    decreases n
  {
    if n > 0 {
      var rest := s[take(s)..];
      SkipIsSuffix(take, rest, n - 1);
      SuffixOfSuffix(s, take(s), |rest| - |Skip(take, rest, n - 1)|);
    }
  }

  /** The rounds the loop ran leave as many bytes as it did not take. */
  lemma {:induction false} RoundsLeave<T(!new)>(pass: seq<T> -> bool, take: seq<T> -> nat, s: seq<T>, attempts: nat)
    requires forall t :: take(t) <= |t|
    ensures var p := Rounds(pass, take, s, attempts); |Skip(take, s, p.polls)| == |s| - p.used
    decreases attempts
  {
    if attempts > 0 && !pass(s) {
      RoundsLeave(pass, take, s[take(s)..], attempts - 1);
    }
  }

  /** The loop takes exactly the replies of the rounds it ran. */
  lemma RoundsTakeTheirReplies<T(!new)>(pass: seq<T> -> bool, take: seq<T> -> nat, s: seq<T>, attempts: nat)
    requires forall t :: take(t) <= |t|
    ensures var p := Rounds(pass, take, s, attempts); s[p.used..] == Skip(take, s, p.polls)
  {
    var p := Rounds(pass, take, s, attempts);
    RoundsLeave(pass, take, s, attempts);
    SkipIsSuffix(take, s, p.polls);
  }

  /** A loop that finishes does so on a round whose reply passes. */
  lemma {:induction false} RoundsEndOnPass<T(!new)>(pass: seq<T> -> bool, take: seq<T> -> nat, s: seq<T>, attempts: nat)
    requires forall t :: take(t) <= |t|
    ensures var p := Rounds(pass, take, s, attempts); p.done ==> pass(Skip(take, s, p.polls - 1))
    decreases attempts
  {
    if attempts > 0 && !pass(s) {
      var rest := s[take(s)..];
      var q := Rounds(pass, take, rest, attempts - 1);
      RoundsEndOnPass(pass, take, rest, attempts - 1);
      if q.done {
        assert Skip(take, s, q.polls) == Skip(take, rest, q.polls - 1);
      }
    }
  }

  /** Every round before the last one failed, and so did the last one when
      the loop did not finish. */
  lemma {:induction false} RoundsFailBefore<T(!new)>(pass: seq<T> -> bool, take: seq<T> -> nat, s: seq<T>, attempts: nat, i: nat)
    requires forall t :: take(t) <= |t|
    requires var p := Rounds(pass, take, s, attempts); i < p.polls && (i < p.polls - 1 || !p.done)
    ensures !pass(Skip(take, s, i))
    decreases attempts
  {
    if i > 0 {
      var rest := s[take(s)..];
      RoundsFailBefore(pass, take, rest, attempts - 1, i - 1);
      assert Skip(take, s, i) == Skip(take, rest, i - 1);
    }
  }
}
