/**
 * The checks a POST goes through. Every check runs; each failing one adds
 * its violation, in the fixed order honeypot, CSRF token, name, message,
 * cooldown.
 */
module Validation {
  import opened Wrappers
  import opened Config
  import opened Text

  /** One user-visible error. `TooFast` carries the seconds still to wait;
      `StoreFailed` is the accept path's. */
  datatype Violation =
    | Spam
    | BadToken
    | BadName
    | BadMessage
    | TooFast(wait: int)
    | StoreFailed

  /** Position of a violation in the error list. */
  function Rank(v: Violation): nat {
    match v
    case Spam => 0
    case BadToken => 1
    case BadName => 2
    case BadMessage => 3
    case TooFast(_) => 4
    case StoreFailed => 5
  }

  /** A trimmed name passes: non-empty and at most `MaxNameLen` code points. */
  predicate NameValid(name: string) {
    name != "" && |name| <= MaxNameLen
  }

  /** A trimmed message passes: non-empty and at most `MaxMsgLen` code points. */
  predicate MessageValid(message: string) {
    message != "" && |message| <= MaxMsgLen
  }

  /** The rate-limit check: with a marker last touched at `mtime`, a post at
      `now` is too early when fewer than `cooldown` seconds have passed, and
      the client is told to wait the rest of the cooldown. */
  function CooldownWait(mtime: Option<int>, now: int, cooldown: int): (wait: Option<int>)
    ensures wait.Some? <==> mtime.Some? && now - mtime.value < cooldown
    ensures wait.Some? ==> wait.value == cooldown - (now - mtime.value) && wait.value > 0
  {
    match mtime
    case None => None
    case Some(t) =>
      var elapsed := now - t;
      if elapsed < cooldown then Some(cooldown - elapsed) else None
  }

  /** When the marker is not in the future, the wait lies in `1..cooldown`. */
  lemma WaitBounded(mtime: int, now: int, cooldown: int)
    requires 0 <= now - mtime
    requires CooldownWait(Some(mtime), now, cooldown).Some?
    ensures 1 <= CooldownWait(Some(mtime), now, cooldown).value <= cooldown
  {
  }

  /** The error list is in the fixed order, each kind at most once:
      every violation ranks above the one before it. */
  predicate Ordered(errs: seq<Violation>) {
    |errs| <= 1 || (Ordered(errs[..|errs| - 1]) && Rank(errs[|errs| - 2]) < Rank(errs[|errs| - 1]))
  }

  /** In an ordered list every later violation ranks above every earlier one. */
  lemma {:induction false} OrderedRanks(errs: seq<Violation>, i: nat, j: nat)
    requires Ordered(errs) && i < j < |errs|
    ensures Rank(errs[i]) < Rank(errs[j])
  {
    var init := errs[..|errs| - 1];
    if j < |errs| - 1 {
      OrderedRanks(init, i, j);
    } else if i < j - 1 {
      OrderedRanks(init, i, j - 1);
    }
  }

  /** Dropping the first violation keeps the list ordered. */
  lemma {:induction false} OrderedTail(errs: seq<Violation>)
    requires Ordered(errs) && errs != []
    ensures Ordered(errs[1..])
  {
    if |errs| > 2 {
      var init := errs[..|errs| - 1];
      OrderedTail(init);
      assert errs[1..][..|errs[1..]| - 1] == init[1..];
    }
  }

  /** `errs` holds exactly the violations of a POST whose trimmed honeypot
      is `hp`, whose token check gave `csrfOk`, with trimmed `name` and
      `message` and rate-limit result `wait`. */
  ghost predicate Flags(errs: seq<Violation>, hp: string, csrfOk: bool, name: string, message: string,
                        wait: Option<int>) {
    && (Spam in errs <==> hp != "")
    && (BadToken in errs <==> !csrfOk)
    && (BadName in errs <==> !NameValid(name))
    && (BadMessage in errs <==> !MessageValid(message))
    && (forall w :: TooFast(w) in errs <==> wait == Some(w))
    && StoreFailed !in errs
  }

  /** `errs` is the error list of that POST: exactly its failing checks,
      in the fixed order. */
  ghost predicate Describes(errs: seq<Violation>, hp: string, csrfOk: bool, name: string, message: string,
                            wait: Option<int>) {
    Flags(errs, hp, csrfOk, name, message, wait) && Ordered(errs)
  }

  /** The rank of the last violation, `-1` for an empty list. */
  function LastRank(errs: seq<Violation>): int {
    if errs == [] then -1 else Rank(errs[|errs| - 1])
  }

  /** Appending a violation that ranks above the last one keeps the list
      ordered. */
  lemma AppendRanked(errs: seq<Violation>, v: Violation)
    requires Ordered(errs) && LastRank(errs) < Rank(v)
    ensures Ordered(errs + [v]) && LastRank(errs + [v]) == Rank(v)
  {
    assert (errs + [v])[..|errs|] == errs;
  }

  /** `[v]` when the check `failed`, else nothing. */
  function Flagged(failed: bool, v: Violation): seq<Violation> {
    if failed then [v] else []
  }

  /** Appending a check's result whose violation ranks above the last one
      keeps the list ordered. */
  lemma AppendFlagged(errs: seq<Violation>, failed: bool, v: Violation)
    requires Ordered(errs) && LastRank(errs) < Rank(v)
    ensures Ordered(errs + Flagged(failed, v)) && LastRank(errs + Flagged(failed, v)) <= Rank(v)
  {
    if failed {
      AppendRanked(errs, v);
    } else {
      assert errs + Flagged(failed, v) == errs;
    }
  }

  /** The failing checks, appended in the fixed order. */
  function Checks(hp: string, csrfOk: bool, name: string, message: string, wait: Option<int>): seq<Violation> {
    Flagged(hp != "", Spam) + Flagged(!csrfOk, BadToken) + Flagged(!NameValid(name), BadName)
    + Flagged(!MessageValid(message), BadMessage) + Flagged(wait.Some?, TooFast(wait.GetOr(0)))
  }

  /** Keeping the failed ones of the five checks, in order, gives an
      ordered list whichever checks failed. */
  lemma FlaggedOrdered(spam: bool, badToken: bool, badName: bool, badMessage: bool, tooFast: bool, w: int)
    ensures Ordered(Flagged(spam, Spam) + Flagged(badToken, BadToken) + Flagged(badName, BadName)
                    + Flagged(badMessage, BadMessage) + Flagged(tooFast, TooFast(w)))
  {
    var e1 := Flagged(spam, Spam);
    var e2 := e1 + Flagged(badToken, BadToken);
    var e3 := e2 + Flagged(badName, BadName);
    var e4 := e3 + Flagged(badMessage, BadMessage);
    assert Ordered(e1) && LastRank(e1) <= 0 by {
      AppendFlagged([], spam, Spam);
      assert [] + e1 == e1;
    }
    assert Ordered(e2) && LastRank(e2) <= 1 by {
      AppendFlagged(e1, badToken, BadToken);
    }
    assert Ordered(e3) && LastRank(e3) <= 2 by {
      AppendFlagged(e2, badName, BadName);
    }
    assert Ordered(e4) && LastRank(e4) <= 3 by {
      AppendFlagged(e3, badMessage, BadMessage);
    }
    AppendFlagged(e4, tooFast, TooFast(w));
  }

  /** The checks' list is ordered. */
  lemma ChecksOrdered(hp: string, csrfOk: bool, name: string, message: string, wait: Option<int>)
    ensures Ordered(Checks(hp, csrfOk, name, message, wait))
  {
    FlaggedOrdered(hp != "", !csrfOk, !NameValid(name), !MessageValid(message), wait.Some?, wait.GetOr(0));
  }

  /** The checks' list holds exactly the failing checks. */
  lemma ChecksFlags(hp: string, csrfOk: bool, name: string, message: string, wait: Option<int>)
    ensures Flags(Checks(hp, csrfOk, name, message, wait), hp, csrfOk, name, message, wait)
  {
  }

  /** A list equal to the checks' list describes the POST. */
  lemma ChecksDescribe(errs: seq<Violation>, hp: string, csrfOk: bool, name: string, message: string,
                       wait: Option<int>)
    requires errs == Checks(hp, csrfOk, name, message, wait)
    ensures Describes(errs, hp, csrfOk, name, message, wait)
  {
    ChecksOrdered(hp, csrfOk, name, message, wait);
    ChecksFlags(hp, csrfOk, name, message, wait);
  }

  /** The validation block: runs every check and appends each failure. */
  method CollectViolations(hp: string, csrfOk: bool, name: string, message: string, wait: Option<int>)
    returns (errs: seq<Violation>)
    ensures Describes(errs, hp, csrfOk, name, message, wait)
  {
    errs := [];
    if hp != "" {
      errs := errs + [Spam];
    }
    ghost var e1 := Flagged(hp != "", Spam);
    assert errs == e1;
    if !csrfOk {
      errs := errs + [BadToken];
    }
    ghost var e2 := e1 + Flagged(!csrfOk, BadToken);
    assert errs == e2;
    if name == "" || |name| > MaxNameLen {
      errs := errs + [BadName];
    }
    ghost var e3 := e2 + Flagged(!NameValid(name), BadName);
    assert errs == e3;
    if message == "" || |message| > MaxMsgLen {
      errs := errs + [BadMessage];
    }
    ghost var e4 := e3 + Flagged(!MessageValid(message), BadMessage);
    assert errs == e4;
    if wait.Some? {
      errs := errs + [TooFast(wait.value)];
    }
    ChecksDescribe(errs, hp, csrfOk, name, message, wait);
  }

  /** Every check passes. */
  predicate Passes(hp: string, csrfOk: bool, name: string, message: string, wait: Option<int>) {
    hp == "" && csrfOk && NameValid(name) && MessageValid(message) && wait.None?
  }

  /** The list is empty exactly when every check passes. */
  lemma DescribesEmpty(errs: seq<Violation>, hp: string, csrfOk: bool, name: string, message: string,
                       wait: Option<int>)
    requires Describes(errs, hp, csrfOk, name, message, wait)
    ensures errs == [] <==> Passes(hp, csrfOk, name, message, wait)
  {
    if errs != [] {
      match errs[0]
      case TooFast(w) => assert wait == Some(w);
      case _ =>
    }
    if !Passes(hp, csrfOk, name, message, wait) && wait.Some? {
      assert TooFast(wait.value) in errs;
    }
  }

  /** Two ordered lists with the same violations are equal. */
  lemma {:induction false} OrderedSameElements(a: seq<Violation>, b: seq<Violation>)
    requires Ordered(a) && Ordered(b)
    requires forall v :: v in a <==> v in b
    ensures a == b
  {
    assert a != [] ==> a[0] in b;
    assert b != [] ==> b[0] in a;
    if a != [] {
      assert b[0] == a[0] by {
        var i :| 0 <= i < |b| && b[i] == a[0];
        var j :| 0 <= j < |a| && a[j] == b[0];
        if i > 0 { OrderedRanks(b, 0, i); }
        if j > 0 { OrderedRanks(a, 0, j); }
      }
      forall v ensures v in a[1..] <==> v in b[1..] {
        if v in a[1..] {
          var k :| 1 <= k < |a| && a[k] == v;
          OrderedRanks(a, 0, k);
          assert v in a && v in b;
          var m :| 0 <= m < |b| && b[m] == v;
          assert m != 0;
          assert b[1..][m - 1] == v;
        }
        if v in b[1..] {
          var k :| 1 <= k < |b| && b[k] == v;
          OrderedRanks(b, 0, k);
          assert v in b && v in a;
          var m :| 0 <= m < |a| && a[m] == v;
          assert m != 0;
          assert a[1..][m - 1] == v;
        }
      }
      OrderedTail(a);
      OrderedTail(b);
      OrderedSameElements(a[1..], b[1..]);
    }
  }

  /** The error list is determined: two lists that describe the same POST
      are equal. */
  lemma DescribesUnique(a: seq<Violation>, b: seq<Violation>, hp: string, csrfOk: bool, name: string,
                        message: string, wait: Option<int>)
    requires Describes(a, hp, csrfOk, name, message, wait)
    requires Describes(b, hp, csrfOk, name, message, wait)
    ensures a == b
  {
    forall v ensures v in a <==> v in b {
      match v
      case TooFast(w) =>
      case _ =>
    }
    OrderedSameElements(a, b);
  }

  /** A honeypot that is not blank after trimming (`hp` is the trimmed
      field) always yields the spam violation, first, whatever the other
      fields hold. */
  lemma HoneypotAlwaysRejected(errs: seq<Violation>, hp: string, csrfOk: bool, name: string, message: string,
                               wait: Option<int>)
    requires Describes(errs, hp, csrfOk, name, message, wait)
    requires hp != ""
    ensures errs != [] && errs[0] == Spam
  {
    var i :| 0 <= i < |errs| && errs[i] == Spam;
    if i > 0 {
      OrderedRanks(errs, 0, i);
    }
  }

  /** A name field counts after trimming: it passes exactly when it holds a
      character other than a trim character and its trimmed length is at
      most `MaxNameLen`; a blank field never passes. */
  lemma NameFieldValid(raw: string)
    ensures NameValid(Trim(raw)) <==>
            (exists i :: 0 <= i < |raw| && !IsTrimSpace(raw[i])) && |Trim(raw)| <= MaxNameLen
  {
    TrimSpec(raw);
  }

  /** The same for the message field and `MaxMsgLen`. */
  lemma MessageFieldValid(raw: string)
    ensures MessageValid(Trim(raw)) <==>
            (exists i :: 0 <= i < |raw| && !IsTrimSpace(raw[i])) && |Trim(raw)| <= MaxMsgLen
  {
    TrimSpec(raw);
  }

  /** The length limits are inclusive: 50 and 2000 code points pass, one
      more fails. */
  lemma LengthBoundaries(name: string, message: string)
    ensures |name| == MaxNameLen ==> NameValid(name)
    ensures |name| == MaxNameLen + 1 ==> !NameValid(name)
    ensures |message| == MaxMsgLen ==> MessageValid(message)
    ensures |message| == MaxMsgLen + 1 ==> !MessageValid(message)
  {
  }
}
