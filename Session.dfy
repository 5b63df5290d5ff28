/** The login history kept under `loginHistory`: most recent first, at most five entries. */
module Session {

  /** The cap applied by `history.slice(0, 5)`. */
  const HistoryLimit: nat := 5

  /** `history.unshift(now); if (history.length > 5) history = history.slice(0, 5)` */
  function PushHistory(history: seq<string>, now: string): (r: seq<string>)
    ensures |r| == if |history| + 1 > HistoryLimit then HistoryLimit else |history| + 1
    ensures r[0] == now
    ensures r[1..] == history[..|r| - 1]
  {
    var h := [now] + history;
    if |h| > HistoryLimit then h[..HistoryLimit] else h
  }

  /** The first `n` entries, or all of them when there are fewer. */
  function Take(s: seq<string>, n: nat): (r: seq<string>)
  {
    if |s| <= n then s else s[..n]
  }

  /** The stamps newest first: the last one becomes the first. */
  function Reverse(s: seq<string>): (r: seq<string>)
    ensures |r| == |s|
    ensures forall i :: 0 <= i < |s| ==> r[i] == s[|s| - 1 - i]
  {
    if s == [] then [] else Reverse(s[1..]) + [s[0]]
  }

  /** The history after successful logins at the times `stamps`, in the order they happened; once anyone has logged in it is within the cap. */
  function AfterLogins(history: seq<string>, stamps: seq<string>): (r: seq<string>)
    ensures stamps != [] || |history| <= HistoryLimit ==> |r| <= HistoryLimit
    decreases |stamps|
  {
    if stamps == [] then history
    else AfterLogins(PushHistory(history, stamps[0]), stamps[1..])
  }

  lemma TakeOfTake(a: seq<string>, b: seq<string>, n: nat)
    ensures Take(a + Take(b, n), n) == Take(a + b, n)
  {
    if |b| > n {
      if |a| >= n {
        assert (a + b[..n])[..n] == a[..n] == (a + b)[..n];
      } else {
        assert (a + b[..n])[..n] == (a + b)[..n];
      }
    }
  }

  /**
   * However many logins happen, the history holds the five most recent
   * timestamps, newest first, followed by what is left of the old history.
   */
  lemma {:induction false} AfterLoginsKeepsMostRecent(history: seq<string>, stamps: seq<string>)
    requires |history| <= HistoryLimit
    ensures AfterLogins(history, stamps) == Take(Reverse(stamps) + history, HistoryLimit)
    decreases |stamps|
  {
    if stamps != [] {
      var pushed := PushHistory(history, stamps[0]);
      var older := [stamps[0]] + history;
      assert pushed == Take(older, HistoryLimit);
      assert AfterLogins(history, stamps) == Take(Reverse(stamps[1..]) + pushed, HistoryLimit) by {
        AfterLoginsKeepsMostRecent(pushed, stamps[1..]);
      }
      assert Take(Reverse(stamps[1..]) + pushed, HistoryLimit) == Take(Reverse(stamps[1..]) + older, HistoryLimit) by {
        TakeOfTake(Reverse(stamps[1..]), older, HistoryLimit);
      }
      assert Reverse(stamps) + history == Reverse(stamps[1..]) + older;
    }
  }

  /** After five or more logins only their own timestamps remain, the newest first. */
  lemma ManyLoginsKeepLastFive(history: seq<string>, stamps: seq<string>)
    requires |history| <= HistoryLimit && |stamps| >= HistoryLimit
    ensures AfterLogins(history, stamps) == Reverse(stamps)[..HistoryLimit]
  {
    AfterLoginsKeepsMostRecent(history, stamps);
    assert (Reverse(stamps) + history)[..HistoryLimit] == Reverse(stamps)[..HistoryLimit];
  }
}
