/**
  The authz message filter (ante/cosmos/authz.go): disabled message types may
  not be granted or executed through authz, and nesting is limited.
*/
module AuthzLimiter {
  import opened Wrappers
  import opened Words

  const MAX_NESTED: int := 7

  /** A message: MsgExec and MsgGrant, whose contents may fail to unpack, or any other with its type URL. */
  datatype Msg =
    | Exec(inner: seq<Msg>)
    | BrokenExec
    | Grant(url: string)
    | BrokenGrant
    | Other(url: string)

  datatype Error = TooDeep(level: int) | Disabled(url: string) | CannotUnpack

  // ---------------------------------------------------------------------
  // The check as it runs
  // ---------------------------------------------------------------------

  /** isDisabledMsg. */
  method IsDisabledMsg(disabled: seq<string>, url: string) returns (found: bool)
    ensures found <==> url in disabled
  {
    for i := 0 to |disabled|
      invariant url !in disabled[..i]
    {
      if url == disabled[i] {
        return true;
      }
    }
    return false;
  }

  /** The level a MsgExec at position i passes on: one more for each MsgExec up to and including it. */
  function Rank(msgs: seq<Msg>, i: nat): (r: nat)
    requires i <= |msgs|
    ensures r == |ExecsBefore(msgs, i)|
  {
    if i == 0 then 0
    else
      assert ExecsBefore(msgs, i) == ExecsBefore(msgs, i - 1) + (if msgs[i - 1].Exec? then {i - 1} else {});
      Rank(msgs, i - 1) + (if msgs[i - 1].Exec? then 1 else 0)
  }

  /** The positions below i that hold a MsgExec. */
  ghost function ExecsBefore(msgs: seq<Msg>, i: nat): set<nat>
    requires i <= |msgs|
  {
    set k: nat | k < i && msgs[k].Exec?
  }

  /** No error in the first n messages of a list checked at the given level. */
  predicate Clean(disabled: seq<string>, msgs: seq<Msg>, isInner: bool, level: int, n: nat)
    requires n <= |msgs|
    decreases msgs, 0, n
  {
    n == 0 ||
    (Clean(disabled, msgs, isInner, level, n - 1) &&
     match msgs[n - 1]
     case Exec(inner) => Accepts(disabled, inner, true, level + Rank(msgs, n))
     case BrokenExec => false
     case Grant(url) => url !in disabled
     case BrokenGrant => false
     case Other(url) => !(isInner && url in disabled))
  }

  predicate Accepts(disabled: seq<string>, msgs: seq<Msg>, isInner: bool, level: int)
    decreases msgs, 1, 0
  {
    level < MAX_NESTED && Clean(disabled, msgs, isInner, level, |msgs|)
  }

  /** A path into a forest of messages: positions, each below a MsgExec. */
  predicate IsPath(msgs: seq<Msg>, path: seq<nat>)
    decreases |path|
  {
    && path != [] && path[0] < |msgs|
    && (|path| > 1 ==> msgs[path[0]].Exec? && IsPath(msgs[path[0]].inner, path[1..]))
  }

  function At(msgs: seq<Msg>, path: seq<nat>): Msg
    requires IsPath(msgs, path)
    decreases |path|
  {
    if |path| == 1 then msgs[path[0]] else At(msgs[path[0]].inner, path[1..])
  }

  /** The ranks among MsgExec siblings, summed along the path. */
  function RankSum(msgs: seq<Msg>, path: seq<nat>): nat
    requires IsPath(msgs, path)
    decreases |path|
  {
    Rank(msgs, path[0] + 1) + if |path| == 1 then 0 else RankSum(msgs[path[0]].inner, path[1..])
  }

  /** The error is about the message at the path. */
  predicate Blames(disabled: seq<string>, msgs: seq<Msg>, isInner: bool, level: int, err: Error, path: seq<nat>) {
    IsPath(msgs, path) &&
    match err
    case CannotUnpack => At(msgs, path).BrokenExec? || At(msgs, path).BrokenGrant?
    case Disabled(url) =>
      url in disabled && (At(msgs, path) == Grant(url) || (At(msgs, path) == Other(url) && (isInner || |path| > 1)))
    case TooDeep(l) => At(msgs, path).Exec? && l == level + RankSum(msgs, path) && l >= MAX_NESTED
  }

  /** An error found below a MsgExec is about a message of the whole list. */
  lemma {:induction false} BlamesBelow(disabled: seq<string>, msgs: seq<Msg>, isInner: bool, level: int,
                                       i: nat, nested: int, err: Error)
    requires i < |msgs| && msgs[i].Exec? && nested == level + Rank(msgs, i + 1)
    requires || (nested >= MAX_NESTED && err == TooDeep(nested))
             || exists p :: Blames(disabled, msgs[i].inner, true, nested, err, p)
    ensures exists p :: Blames(disabled, msgs, isInner, level, err, p)
  {
    if p :| Blames(disabled, msgs[i].inner, true, nested, err, p) {
      var q := [i] + p;
      assert q[1..] == p;
      assert Blames(disabled, msgs, isInner, level, err, q);
    } else {
      assert Blames(disabled, msgs, isInner, level, err, [i]);
    }
  }

  /** checkDisabledMsgs: the level grows with every MsgExec seen so far, siblings included. */
  method CheckDisabledMsgs(disabled: seq<string>, msgs: seq<Msg>, isInner: bool, level: int) returns (err: Option<Error>)
    ensures err.None? <==> Accepts(disabled, msgs, isInner, level)
    ensures err.Some? ==>
      || (level >= MAX_NESTED && err == Some(TooDeep(level)))
      || exists path :: Blames(disabled, msgs, isInner, level, err.value, path)
    decreases msgs
  {
    if level >= MAX_NESTED {
      return Some(TooDeep(level));
    }
    var nested := level;
    for i := 0 to |msgs|
      invariant nested == level + Rank(msgs, i) && Clean(disabled, msgs, isInner, level, i)
    {
      match msgs[i]
      case Exec(inner) =>
        nested := nested + 1;
        var e := CheckDisabledMsgs(disabled, inner, true, nested);
        if e.Some? {
          assert nested == level + Rank(msgs, i + 1);
          BlamesBelow(disabled, msgs, isInner, level, i, nested, e.value);
          NotClean(disabled, msgs, isInner, level, i + 1);
          return e;
        }
      case BrokenExec =>
        NotClean(disabled, msgs, isInner, level, i + 1);
        assert Blames(disabled, msgs, isInner, level, CannotUnpack, [i]);
        return Some(CannotUnpack);
      case Grant(url) =>
        var d := IsDisabledMsg(disabled, url);
        if d {
          NotClean(disabled, msgs, isInner, level, i + 1);
          assert Blames(disabled, msgs, isInner, level, Disabled(url), [i]);
          return Some(Disabled(url));
        }
      case BrokenGrant =>
        NotClean(disabled, msgs, isInner, level, i + 1);
        assert Blames(disabled, msgs, isInner, level, CannotUnpack, [i]);
        return Some(CannotUnpack);
      case Other(url) =>
        var d := IsDisabledMsg(disabled, url);
        if isInner && d {
          NotClean(disabled, msgs, isInner, level, i + 1);
          assert Blames(disabled, msgs, isInner, level, Disabled(url), [i]);
          return Some(Disabled(url));
        }
    }
    return None;
  }

  /** One bad message spoils the rest. */
  lemma {:induction false} NotClean(disabled: seq<string>, msgs: seq<Msg>, isInner: bool, level: int, i: nat)
    requires i <= |msgs| && !Clean(disabled, msgs, isInner, level, i)
    ensures !Clean(disabled, msgs, isInner, level, |msgs|)
    decreases |msgs| - i
  {
    if i < |msgs| { NotClean(disabled, msgs, isInner, level, i + 1); }
  }

  // ---------------------------------------------------------------------
  // What is accepted
  // ---------------------------------------------------------------------

  /** The message at a path is allowed: everything unpacks, nothing disabled, ranks within the budget. */
  predicate NodeAllowed(disabled: seq<string>, msgs: seq<Msg>, path: seq<nat>, isInner: bool, budget: int)
    requires IsPath(msgs, path)
  {
    match At(msgs, path)
    case Exec(_) => RankSum(msgs, path) <= budget
    case BrokenExec => false
    case Grant(url) => url !in disabled
    case BrokenGrant => false
    case Other(url) => (isInner || |path| > 1) ==> url !in disabled
  }

  ghost predicate AllAllowed(disabled: seq<string>, msgs: seq<Msg>, isInner: bool, budget: int) {
    forall path :: IsPath(msgs, path) ==> NodeAllowed(disabled, msgs, path, isInner, budget)
  }

  lemma {:induction false} CleanAt(disabled: seq<string>, msgs: seq<Msg>, isInner: bool, level: int, n: nat, i: nat)
    requires i < n <= |msgs| && Clean(disabled, msgs, isInner, level, n)
    ensures Clean(disabled, msgs, isInner, level, i + 1)
    decreases n
  {
    if i + 1 < n { CleanAt(disabled, msgs, isInner, level, n - 1, i); }
  }

  /** Every message of an accepted forest is allowed. */
  lemma {:induction false} AcceptedNodeAllowed(disabled: seq<string>, msgs: seq<Msg>, isInner: bool, level: int, path: seq<nat>)
    requires Accepts(disabled, msgs, isInner, level) && IsPath(msgs, path)
    ensures NodeAllowed(disabled, msgs, path, isInner, MAX_NESTED - 1 - level)
    decreases |path|
  {
    CleanAt(disabled, msgs, isInner, level, |msgs|, path[0]);
    if |path| > 1 {
      AcceptedNodeAllowed(disabled, msgs[path[0]].inner, true, level + Rank(msgs, path[0] + 1), path[1..]);
    }
  }

  lemma {:induction false} AllowedBelow(disabled: seq<string>, msgs: seq<Msg>, isInner: bool, budget: int, i: nat)
    requires AllAllowed(disabled, msgs, isInner, budget) && i < |msgs| && msgs[i].Exec?
    ensures Rank(msgs, i + 1) <= budget
    ensures AllAllowed(disabled, msgs[i].inner, true, budget - Rank(msgs, i + 1))
  {
    assert IsPath(msgs, [i]);
    assert NodeAllowed(disabled, msgs, [i], isInner, budget);
    forall p | IsPath(msgs[i].inner, p) ensures NodeAllowed(disabled, msgs[i].inner, p, true, budget - Rank(msgs, i + 1)) {
      var q := [i] + p;
      assert q[1..] == p;
      assert IsPath(msgs, q);
      assert NodeAllowed(disabled, msgs, q, isInner, budget);
    }
  }

  /** A forest of allowed messages is accepted. */
  lemma {:induction false} AllowedIsClean(disabled: seq<string>, msgs: seq<Msg>, isInner: bool, level: int, n: nat)
    requires AllAllowed(disabled, msgs, isInner, MAX_NESTED - 1 - level) && n <= |msgs|
    ensures Clean(disabled, msgs, isInner, level, n)
    decreases msgs, n
  {
    if n > 0 {
      var i := n - 1;
      AllowedIsClean(disabled, msgs, isInner, level, i);
      if msgs[i].Exec? {
        AllowedBelow(disabled, msgs, isInner, MAX_NESTED - 1 - level, i);
        AllowedIsClean(disabled, msgs[i].inner, true, level + Rank(msgs, n), |msgs[i].inner|);
      } else {
        assert IsPath(msgs, [i]);
        assert NodeAllowed(disabled, msgs, [i], isInner, MAX_NESTED - 1 - level);
      }
    }
  }

  /**
    A transaction's messages are accepted if and only if every MsgExec and MsgGrant unpacks, no
    disabled type is granted or sits inside a MsgExec, and for every MsgExec the ranks among
    MsgExec siblings along its path sum to at most five.
  */
  lemma {:induction false} AcceptedIff(disabled: seq<string>, msgs: seq<Msg>)
    ensures Accepts(disabled, msgs, false, 1) <==> AllAllowed(disabled, msgs, false, 5)
  {
    if Accepts(disabled, msgs, false, 1) {
      forall path | IsPath(msgs, path) ensures NodeAllowed(disabled, msgs, path, false, 5) {
        AcceptedNodeAllowed(disabled, msgs, false, 1, path);
      }
    }
    if AllAllowed(disabled, msgs, false, 5) {
      AllowedIsClean(disabled, msgs, false, 1, |msgs|);
    }
  }

  // ---------------------------------------------------------------------
  // How many MsgExec a transaction can hold
  // ---------------------------------------------------------------------

  /** All MsgExec nodes among the first n messages, at any depth. */
  function ExecCount(msgs: seq<Msg>, n: nat): nat
    requires n <= |msgs|
    decreases msgs, n
  {
    if n == 0 then 0
    else ExecCount(msgs, n - 1) +
         (match msgs[n - 1]
          case Exec(inner) => 1 + ExecCount(inner, |inner|)
          case _ => 0)
  }

  /** r MsgExec siblings within a budget of b levels hold at most 2^b - 2^(b-r) MsgExec nodes. */
  lemma {:induction false} ExecCountBound(disabled: seq<string>, msgs: seq<Msg>, isInner: bool, level: int, n: nat)
    requires level < MAX_NESTED && n <= |msgs| && Clean(disabled, msgs, isInner, level, n)
    ensures Rank(msgs, n) <= MAX_NESTED - 1 - level
    ensures ExecCount(msgs, n) + Pow2(MAX_NESTED - 1 - level - Rank(msgs, n)) <= Pow2(MAX_NESTED - 1 - level)
    decreases msgs, n
  {
    if n > 0 {
      ExecCountBound(disabled, msgs, isInner, level, n - 1);
      if msgs[n - 1].Exec? {
        var inner := msgs[n - 1].inner;
        ExecCountBound(disabled, inner, true, level + Rank(msgs, n), |inner|);
      }
    }
  }

  /** An accepted transaction holds at most 31 MsgExec nodes. */
  lemma {:induction false} AtMost31Exec(disabled: seq<string>, msgs: seq<Msg>)
    requires Accepts(disabled, msgs, false, 1)
    ensures ExecCount(msgs, |msgs|) <= 31
  {
    ExecCountBound(disabled, msgs, false, 1, |msgs|);
    assert Pow2(5) == 4 * Pow2(3) == 32;
  }

  /** MsgExec siblings, each holding as many MsgExec as its rank leaves room for. */
  function Fullest(budget: nat, siblings: nat): seq<Msg>
    requires siblings <= budget
    decreases budget, siblings
  {
    if siblings == 0 then []
    else Fullest(budget, siblings - 1) + [Exec(Fullest(budget - siblings, budget - siblings))]
  }

  lemma {:induction false} FullestShape(budget: nat, siblings: nat)
    requires siblings <= budget
    ensures |Fullest(budget, siblings)| == siblings
    ensures forall i :: 0 <= i < siblings ==> Fullest(budget, siblings)[i] == Exec(Fullest(budget - i - 1, budget - i - 1))
    decreases siblings
  {
    if siblings > 0 { FullestShape(budget, siblings - 1); }
  }

  lemma {:induction false} RankOfExecs(msgs: seq<Msg>, n: nat)
    requires n <= |msgs| && forall i :: 0 <= i < n ==> msgs[i].Exec?
    ensures Rank(msgs, n) == n
  {
    if n > 0 { RankOfExecs(msgs, n - 1); }
  }

  lemma {:induction false} FullestClean(disabled: seq<string>, budget: nat, isInner: bool, n: nat)
    requires n <= budget < MAX_NESTED
    ensures |Fullest(budget, budget)| == budget
    ensures Clean(disabled, Fullest(budget, budget), isInner, MAX_NESTED - 1 - budget, n)
    ensures ExecCount(Fullest(budget, budget), n) + Pow2(budget - n) == Pow2(budget)
    decreases budget, n
  {
    hide Fullest;
    var msgs := Fullest(budget, budget);
    FullestShape(budget, budget);
    if n > 0 {
      FullestClean(disabled, budget, isInner, n - 1);
      FullestClean(disabled, budget - n, true, budget - n);
      RankOfExecs(msgs, n);
      assert Pow2(budget - n + 1) == 2 * Pow2(budget - n);
    }
  }

  /** The bound of 31 is reached. */
  lemma {:induction false} ThirtyOneExecAccepted(disabled: seq<string>)
    ensures Accepts(disabled, Fullest(5, 5), false, 1)
    ensures ExecCount(Fullest(5, 5), |Fullest(5, 5)|) == 31
  {
    FullestClean(disabled, 5, false, 5);
    assert Pow2(5) == 4 * Pow2(3) == 32;
  }

  /** Siblings count as nesting: six empty MsgExec side by side are refused, although none is nested. */
  lemma {:induction false} SixSiblingsRefused(disabled: seq<string>)
    ensures !Accepts(disabled, seq(6, _ => Exec([])), false, 1)
  {
    var msgs: seq<Msg> := seq(6, _ => Exec([]));
    if Accepts(disabled, msgs, false, 1) {
      ExecCountBound(disabled, msgs, false, 1, 6);
      RankOfExecs(msgs, 6);
    }
  }
}
