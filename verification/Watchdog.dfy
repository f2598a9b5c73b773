/**
  The watchdog loop: it walks the linked list of agents, deletes an agent when its check first answers false, and
  starts again at the head after every deletion and at the end of the list.
 */
module Watchdog {
  import opened Bytes

  /** What a check does before it answers false for good. */
  datatype Answer = Alive | Throws(message: string)

  class Agent {
    var next: Agent?
    /** The answers still to come; when there are none, the check answers false. */
    var answers: seq<Answer>

    constructor (answers: seq<Answer>)
      ensures this.answers == answers && next == null
    {
      this.answers := answers;
      next := null;
    }

    /** One check: alive, an exception, or no answer. */
    method Check() returns (ok: bool, thrown: Option<string>)
      modifies this`answers
      ensures old(answers) == [] ==> !ok && thrown.None? && answers == []
      ensures old(answers) != [] ==> ok && answers == old(answers)[1..] && thrown == Thrown(old(answers)[0])
    {
      ok, thrown := answers != [], None;
      if ok {
        thrown := Thrown(answers[0]);
        answers := answers[1..];
      }
    }
  }

  function Thrown(a: Answer): Option<string> {
    match a case Alive => None case Throws(m) => Some(m)
  }

  // ---------------------------------------------------------------- specification

  datatype Entry = Entry(agent: Agent, answers: seq<Answer>)

  /** The checks made, in order; the agents deleted, with the loop count at which each was; the last exception. */
  datatype Outcome = Outcome(checked: seq<Agent>, deleted: seq<Agent>, reports: seq<nat>, message: string)

  /** Checks until the list is empty: what every agent still answers, and its last answer. */
  function Checks(es: seq<Entry>): nat {
    if es == [] then 0 else Checks(es[..|es| - 1]) + |es[|es| - 1].answers| + 1
  }

  lemma {:induction false} ChecksOfConcat(a: seq<Entry>, b: seq<Entry>)
    ensures Checks(a + b) == Checks(a) + Checks(b)
  {
    if b == [] {
      assert a + b == a;
    } else {
      assert (a + b)[..|a + b| - 1] == a + b[..|b| - 1];
      ChecksOfConcat(a, b[..|b| - 1]);
    }
  }

  /** One answer of the i-th agent is used up. */
  function Used(es: seq<Entry>, i: nat): seq<Entry>
    requires i < |es| && es[i].answers != []
  {
    es[i := Entry(es[i].agent, es[i].answers[1..])]
  }

  lemma ChecksSplit(es: seq<Entry>, i: nat)
    requires i < |es|
    ensures Checks(es) == Checks(Without(es, i)) + |es[i].answers| + 1
    ensures es[i].answers != [] ==> Checks(es) == Checks(Used(es, i)) + 1
  {
    hide Checks;
    ChecksOfConcat(es[..i], es[i + 1..]);
    OneEntry(es[..i], es[i], es[i + 1..]);
    assert es == es[..i] + [es[i]] + es[i + 1..];
    if es[i].answers != [] {
      var used := Entry(es[i].agent, es[i].answers[1..]);
      OneEntry(es[..i], used, es[i + 1..]);
      assert Used(es, i) == es[..i] + [used] + es[i + 1..];
    }
  }

  lemma OneEntry(a: seq<Entry>, e: Entry, b: seq<Entry>)
    ensures Checks(a + [e] + b) == Checks(a) + Checks(b) + |e.answers| + 1
  {
    ChecksOfConcat(a + [e], b);
    assert (a + [e])[..|a|] == a;
  }

  function Next(i: nat, size: nat): nat {
    if i + 1 < size then i + 1 else 0
  }

  /** The loop from the agent at position i on. */
  function Watch(es: seq<Entry>, i: nat, n: nat, message: string): Outcome
    requires if es == [] then i == 0 else i < |es|
    decreases Checks(es)
  {
    if es == [] then Outcome([], [], [], message)
    else
      var a := es[i].agent;
      ChecksSplit(es, i);
      if es[i].answers == [] then
        var r := Watch(Without(es, i), 0, n + 1, message);
        Outcome([a] + r.checked, [a] + r.deleted, [n] + r.reports, r.message)
      else
        var m := match es[i].answers[0] case Alive => message case Throws(t) => t;
        var r := Watch(Used(es, i), Next(i, |es|), n + 1, m);
        r.(checked := [a] + r.checked)
  }

  function AgentsOf(es: seq<Entry>): seq<Agent> {
    seq(|es|, i requires 0 <= i < |es| => es[i].agent)
  }

  function Follower(spine: seq<Agent>, k: nat): Agent? {
    if k < |spine| then spine[k] else null
  }

  /** What the agents still answer. */
  ghost function EntriesOf(spine: seq<Agent>): (es: seq<Entry>)
    reads spine`answers
    ensures |es| == |spine|
  {
    if spine == [] then [] else EntriesOf(spine[..|spine| - 1]) + [Entry(spine[|spine| - 1], spine[|spine| - 1].answers)]
  }

  lemma {:induction false} EntriesAt(spine: seq<Agent>, k: nat)
    requires k < |spine|
    ensures EntriesOf(spine)[k] == Entry(spine[k], spine[k].answers)
  {
    if k < |spine| - 1 {
      EntriesAt(spine[..|spine| - 1], k);
    }
  }

  lemma {:induction false} EntriesAppend(a: seq<Agent>, b: seq<Agent>)
    ensures EntriesOf(a + b) == EntriesOf(a) + EntriesOf(b)
  {
    if b == [] {
      assert a + b == a;
    } else {
      assert (a + b)[..|a + b| - 1] == a + b[..|b| - 1];
      EntriesAppend(a, b[..|b| - 1]);
    }
  }

  lemma EntriesOfOne(a: Agent)
    ensures EntriesOf([a]) == [Entry(a, a.answers)]
  {
    assert [a][..0] == [];
  }

  lemma EntriesDelete(spine: seq<Agent>, i: nat)
    requires i < |spine|
    ensures EntriesOf(Without(spine, i)) == Without(EntriesOf(spine), i)
  {
    hide *;
    var a, x, b := spine[..i], spine[i], spine[i + 1..];
    Middle(spine, i);
    EntriesAppend(a, [x] + b);
    EntriesAppend([x], b);
    EntriesAppend(a, b);
    EntriesOfOne(x);
    DeleteMiddle(EntriesOf(a), Entry(x, x.answers), EntriesOf(b));
  }

  lemma Middle<T>(s: seq<T>, i: nat)
    requires i < |s|
    ensures s == s[..i] + ([s[i]] + s[i + 1..]) && Without(s, i) == s[..i] + s[i + 1..]
  {
  }

  lemma DeleteMiddle<T>(a: seq<T>, x: T, b: seq<T>)
    ensures Without(a + ([x] + b), |a|) == a + b
  {
  }

  /** The list that starts at `head` is the spine, link by link. */
  ghost predicate Linked(head: Agent?, spine: seq<Agent>)
    reads spine`next
  {
    && head == Follower(spine, 0)
    && forall k | 0 <= k < |spine| :: spine[k].next == Follower(spine, k + 1)
  }

  lemma LinkedPrepend(a: Agent, head: Agent?, spine: seq<Agent>)
    requires Linked(head, spine) && a.next == head && a !in spine
    ensures Linked(a, [a] + spine)
  {
    var s := [a] + spine;
    forall k | 0 <= k < |s| ensures s[k].next == Follower(s, k + 1) {
      if k > 0 {
        assert s[k] == spine[k - 1];
      }
    }
  }

  lemma FollowerDelete(spine: seq<Agent>, i: nat)
    requires i < |spine|
    ensures |Without(spine, i)| == |spine| - 1
    ensures forall k | 0 <= k < |spine| - 1 :: Without(spine, i)[k] == spine[if k < i then k else k + 1]
    ensures forall k | 0 <= k < |spine| :: Follower(Without(spine, i), k) == Follower(spine, if k < i then k else k + 1)
  {
  }

  lemma NotPrevious(spine: seq<Agent>, i: nat, l: nat)
    requires Distinct(spine) && i < |spine| && l < |spine| && i > 0
    ensures spine[l] == spine[i - 1] <==> l == i - 1
  {
  }

  lemma DistinctPrepend<T>(x: T, xs: seq<T>)
    requires Distinct(xs) && x !in xs
    ensures Distinct([x] + xs)
  {
  }

  lemma DistinctDelete<T>(xs: seq<T>, i: nat)
    requires Distinct(xs) && i < |xs|
    ensures Distinct(Without(xs, i)) && xs[i] !in Without(xs, i)
  {
    var ys := Without(xs, i);
    forall k, l | 0 <= k < l < |ys| ensures ys[k] != ys[l] {
      assert ys[k] == xs[if k < i then k else k + 1] && ys[l] == xs[if l < i then l else l + 1];
    }
  }

  predicate Distinct<T(==)>(xs: seq<T>) {
    forall i, j | 0 <= i < j < |xs| :: xs[i] != xs[j]
  }

  /** Every agent is deleted exactly once, and the loop runs exactly once for every answer there is. */
  lemma {:induction false} EveryAgentIsDeletedOnce(es: seq<Entry>, i: nat, n: nat, message: string)
    requires if es == [] then i == 0 else i < |es|
    ensures multiset(Watch(es, i, n, message).deleted) == multiset(AgentsOf(es))
    ensures |Watch(es, i, n, message).checked| == Checks(es)
    decreases Checks(es)
  {
    hide AgentsOf, Checks, Used, Without;
    if es == [] {
      NoAgents();
    } else {
      ChecksSplit(es, i);
      AgentsSplit(es, i);
      if es[i].answers == [] {
        EveryAgentIsDeletedOnce(Without(es, i), 0, n + 1, message);
        FirstCounted(es[i].agent, Watch(Without(es, i), 0, n + 1, message).deleted);
      } else {
        var m := match es[i].answers[0] case Alive => message case Throws(t) => t;
        EveryAgentIsDeletedOnce(Used(es, i), Next(i, |es|), n + 1, m);
      }
    }
  }

  lemma NoAgents()
    ensures AgentsOf([]) == [] && Checks([]) == 0
  {
  }

  lemma FirstCounted(a: Agent, rest: seq<Agent>)
    ensures multiset([a] + rest) == multiset{a} + multiset(rest)
  {
  }

  lemma AgentsSplit(es: seq<Entry>, i: nat)
    requires i < |es|
    ensures |Without(es, i)| == |es| - 1
    ensures multiset(AgentsOf(es)) == multiset{es[i].agent} + multiset(AgentsOf(Without(es, i)))
    ensures es[i].answers != [] ==> |Used(es, i)| == |es| && AgentsOf(Used(es, i)) == AgentsOf(es)
  {
    assert AgentsOf(Without(es, i)) == AgentsOf(es)[..i] + AgentsOf(es)[i + 1..];
    assert AgentsOf(es) == AgentsOf(es)[..i] + [es[i].agent] + AgentsOf(es)[i + 1..];
  }

  /** Each agent is checked once for every answer it gives before the first false, and once more. */
  lemma {:induction false} CheckedUntilItFails(es: seq<Entry>, i: nat, n: nat, message: string, k: nat)
    requires if es == [] then i == 0 else i < |es|
    requires Distinct(AgentsOf(es)) && k < |es|
    ensures multiset(Watch(es, i, n, message).checked)[es[k].agent] == |es[k].answers| + 1
    decreases Checks(es)
  {
    hide Checks, Watch;
    var a, x := es[i].agent, es[k].agent;
    ChecksSplit(es, i);
    NotTheSame(es, i, k);
    FirstCheck(es, i, n, message, x);
    if es[i].answers == [] {
      var rest := Without(es, i);
      AgentsWithout(es, i);
      if k == i {
        NeverChecked(rest, 0, n + 1, message, a);
      } else {
        var l := if k < i then k else k - 1;
        assert rest[l] == es[k];
        CheckedUntilItFails(rest, 0, n + 1, message, l);
      }
    } else {
      var m := match es[i].answers[0] case Alive => message case Throws(t) => t;
      assert AgentsOf(Used(es, i)) == AgentsOf(es);
      CheckedUntilItFails(Used(es, i), Next(i, |es|), n + 1, m, k);
    }
  }

  /** The count q was printed for agent a: check q is one of a, and the last. Counting starts at n. */
  predicate LastCheckOf(checked: seq<Agent>, n: nat, q: nat, a: Agent) {
    n <= q < n + |checked| && checked[q - n] == a && a !in checked[q - n + 1..]
  }

  /** The count printed for a deleted agent is the number of its last check. */
  predicate ReportsFit(r: Outcome, n: nat) {
    |r.reports| == |r.deleted|
    && forall k | 0 <= k < |r.reports| :: LastCheckOf(r.checked, n, r.reports[k], r.deleted[k])
  }

  lemma CheckedBefore(checked: seq<Agent>, n: nat, q: nat, a: Agent, first: Agent)
    requires LastCheckOf(checked, n + 1, q, a)
    ensures LastCheckOf([first] + checked, n, q, a)
  {
    assert ([first] + checked)[q - n + 1..] == checked[q - n..];
  }

  lemma CheckedNow(checked: seq<Agent>, n: nat, a: Agent)
    requires a !in checked
    ensures LastCheckOf([a] + checked, n, n, a)
  {
    assert ([a] + checked)[1..] == checked;
  }

  lemma ReportsLater(r: Outcome, n: nat, a: Agent)
    requires ReportsFit(r, n + 1)
    ensures ReportsFit(r.(checked := [a] + r.checked), n)
  {
    hide LastCheckOf;
    forall k | 0 <= k < |r.reports| ensures LastCheckOf([a] + r.checked, n, r.reports[k], r.deleted[k]) {
      CheckedBefore(r.checked, n, r.reports[k], r.deleted[k], a);
    }
  }

  lemma ReportedNow(r: Outcome, n: nat, a: Agent)
    requires ReportsFit(r.(checked := [a] + r.checked), n) && a !in r.checked
    ensures ReportsFit(Outcome([a] + r.checked, [a] + r.deleted, [n] + r.reports, r.message), n)
  {
    hide LastCheckOf;
    CheckedNow(r.checked, n, a);
  }

  /** Every report names the check at which the agent first refused; that was its last. */
  lemma {:induction false} ReportsNameTheLastCheck(es: seq<Entry>, i: nat, n: nat, message: string)
    requires if es == [] then i == 0 else i < |es|
    requires Distinct(AgentsOf(es))
    ensures ReportsFit(Watch(es, i, n, message), n)
    decreases Checks(es)
  {
    hide Checks, Distinct, AgentsOf, ReportsFit;
    if es == [] {
      NothingReported(message, n);
    } else {
      ChecksSplit(es, i);
      if es[i].answers == [] {
        AgentsWithout(es, i);
        NeverChecked(Without(es, i), 0, n + 1, message, es[i].agent);
        ReportsNameTheLastCheck(Without(es, i), 0, n + 1, message);
        ReportsLater(Watch(Without(es, i), 0, n + 1, message), n, es[i].agent);
        ReportedNow(Watch(Without(es, i), 0, n + 1, message), n, es[i].agent);
      } else {
        var m := match es[i].answers[0] case Alive => message case Throws(t) => t;
        SameAgents(es, i);
        ReportsNameTheLastCheck(Used(es, i), Next(i, |es|), n + 1, m);
        ReportsLater(Watch(Used(es, i), Next(i, |es|), n + 1, m), n, es[i].agent);
      }
    }
  }

  lemma NothingReported(message: string, n: nat)
    ensures ReportsFit(Outcome([], [], [], message), n)
  {
  }

  lemma SameAgents(es: seq<Entry>, i: nat)
    requires i < |es| && es[i].answers != []
    ensures AgentsOf(Used(es, i)) == AgentsOf(es)
  {
  }

  lemma NotTheSame(es: seq<Entry>, i: nat, k: nat)
    requires Distinct(AgentsOf(es)) && i < |es| && k < |es|
    ensures es[i].agent == es[k].agent <==> i == k
  {
    assert AgentsOf(es)[i] == es[i].agent && AgentsOf(es)[k] == es[k].agent;
  }

  lemma AgentsWithout(es: seq<Entry>, i: nat)
    requires i < |es| && Distinct(AgentsOf(es))
    ensures Distinct(AgentsOf(Without(es, i))) && es[i].agent !in AgentsOf(Without(es, i))
  {
    var xs, ys := AgentsOf(es), AgentsOf(Without(es, i));
    forall k | 0 <= k < |ys| ensures ys[k] == xs[if k < i then k else k + 1] && ys[k] != xs[i] {
    }
    forall k, l | 0 <= k < l < |ys| ensures ys[k] != ys[l] {
      assert xs[if k < i then k else k + 1] != xs[if l < i then l else l + 1];
    }
  }

  /** The first check of a run, then those of the rest. */
  lemma FirstCheck(es: seq<Entry>, i: nat, n: nat, message: string, x: Agent)
    requires i < |es|
    ensures Checks(es) == Checks(Without(es, i)) + |es[i].answers| + 1
    ensures var now := if x == es[i].agent then 1 else 0;
            multiset(Watch(es, i, n, message).checked)[x] == now +
              if es[i].answers == [] then multiset(Watch(Without(es, i), 0, n + 1, message).checked)[x]
              else
                var m := match es[i].answers[0] case Alive => message case Throws(t) => t;
                multiset(Watch(Used(es, i), Next(i, |es|), n + 1, m).checked)[x]
  {
    ChecksSplit(es, i);
    OneMore(es[i].agent, if es[i].answers == [] then Watch(Without(es, i), 0, n + 1, message).checked
                         else Watch(Used(es, i), Next(i, |es|), n + 1,
                                    match es[i].answers[0] case Alive => message case Throws(t) => t).checked, x);
  }

  lemma OneMore(a: Agent, later: seq<Agent>, x: Agent)
    ensures multiset([a] + later)[x] == multiset(later)[x] + if x == a then 1 else 0
  {
  }

  lemma {:induction false} NeverChecked(es: seq<Entry>, i: nat, n: nat, message: string, a: Agent)
    requires if es == [] then i == 0 else i < |es|
    requires a !in AgentsOf(es)
    ensures a !in Watch(es, i, n, message).checked
    decreases Checks(es)
  {
    if es != [] {
      ChecksSplit(es, i);
      assert AgentsOf(es)[i] == es[i].agent;
      if es[i].answers == [] {
        assert AgentsOf(Without(es, i)) == AgentsOf(es)[..i] + AgentsOf(es)[i + 1..];
        NeverChecked(Without(es, i), 0, n + 1, message, a);
      } else {
        var m := match es[i].answers[0] case Alive => message case Throws(t) => t;
        assert AgentsOf(Used(es, i)) == AgentsOf(es);
        NeverChecked(Used(es, i), Next(i, |es|), n + 1, m, a);
      }
    }
  }

  /** As long as no agent refuses, the checks go round the list in order, beginning with the i-th agent. */
  lemma {:induction false} RoundRobin(es: seq<Entry>, i: nat, n: nat, message: string, k: nat)
    requires i < |es| && k < |Watch(es, i, n, message).checked|
    requires var r := Watch(es, i, n, message); r.reports != [] && n + k <= r.reports[0]
    ensures Watch(es, i, n, message).checked[k] == es[Wrapped(i + k, |es|)].agent
    decreases k
  {
    hide Checks, Wrapped;
    Around(i, k, |es|);
    if k > 0 {
      ChecksSplit(es, i);
      var m := match es[i].answers[0] case Alive => message case Throws(t) => t;
      RoundRobin(Used(es, i), Next(i, |es|), n + 1, m, k - 1);
    }
  }

  /** The position that many steps from the head, going round a list of that size. */
  function Wrapped(steps: nat, size: nat): (j: nat)
    requires size > 0
    ensures j < size
  {
    if steps < size then steps else Wrapped(steps - size, size)
  }

  lemma Around(i: nat, k: nat, size: nat)
    requires i < size
    ensures k > 0 ==> Wrapped(Next(i, size) + (k - 1), size) == Wrapped(i + k, size)
    ensures Wrapped(i, size) == i
  {
  }

  /** The entries without the refusing agent, which has no answers left; others may have used some up. */
  predicate SameList(rest: seq<Entry>, es: seq<Entry>, j: nat)
    requires j < |es|
  {
    AgentsOf(rest) == AgentsOf(Without(es, j))
  }

  /** The first agent that refuses is the one whose turn it is; then the loop starts at the head of the others. */
  lemma {:induction false} FirstRefusal(es: seq<Entry>, i: nat, n: nat, message: string)
    returns (rest: seq<Entry>, m: string, q: nat)
    requires i < |es|
    ensures var r := Watch(es, i, n, message);
            && r.reports != [] && r.deleted != [] && r.reports[0] == n + q && q < |r.checked|
            && r.deleted[0] == r.checked[q] == es[Wrapped(i + q, |es|)].agent
            && SameList(rest, es, Wrapped(i + q, |es|))
            && Watch(rest, 0, n + q + 1, m) == Outcome(r.checked[q + 1..], r.deleted[1..], r.reports[1..], r.message)
    decreases Checks(es)
  {
    hide Checks, AgentsOf, Wrapped, Watch, Without, Used;
    ChecksSplit(es, i);
    Around(i, 0, |es|);
    OneRound(es, i, n, message);
    if es[i].answers == [] {
      rest, m, q := Without(es, i), message, 0;
    } else {
      var m1 := match es[i].answers[0] case Alive => message case Throws(t) => t;
      var inner;
      SameSize(es, i);
      rest, m, inner := FirstRefusal(Used(es, i), Next(i, |es|), n + 1, m1);
      q := inner + 1;
      Around(i, q, |es|);
      var r := Watch(Used(es, i), Next(i, |es|), n + 1, m1);
      assert ([es[i].agent] + r.checked)[q + 1..] == r.checked[inner + 1..];
      SameAgentsWithout(es, i, Wrapped(i + q, |es|));
      AgentsStay(es, i, Wrapped(i + q, |es|));
    }
  }

  lemma SameSize(es: seq<Entry>, i: nat)
    requires i < |es| && es[i].answers != []
    ensures |Used(es, i)| == |es| && Next(i, |es|) < |es|
  {
  }

  lemma AgentsStay(es: seq<Entry>, i: nat, j: nat)
    requires i < |es| && j < |es| && es[i].answers != []
    ensures |Used(es, i)| == |es| && Used(es, i)[j].agent == es[j].agent
  {
  }

  /** One check, then the loop over what is left. */
  lemma OneRound(es: seq<Entry>, i: nat, n: nat, message: string)
    requires i < |es|
    ensures Checks(es) == Checks(Without(es, i)) + |es[i].answers| + 1
    ensures var r := Watch(es, i, n, message); var a := es[i].agent;
            if es[i].answers == [] then
              var later := Watch(Without(es, i), 0, n + 1, message);
              && r.checked != [] && r.checked[0] == a && r.deleted != [] && r.deleted[0] == a
              && r.reports != [] && r.reports[0] == n
              && later == Outcome(r.checked[1..], r.deleted[1..], r.reports[1..], r.message)
            else
              var m := match es[i].answers[0] case Alive => message case Throws(t) => t;
              r == Watch(Used(es, i), Next(i, |es|), n + 1, m).(
                checked := [a] + Watch(Used(es, i), Next(i, |es|), n + 1, m).checked)
  {
    hide Checks;
    ChecksSplit(es, i);
    var a := es[i].agent;
    if es[i].answers == [] {
      var r := Watch(Without(es, i), 0, n + 1, message);
      assert ([a] + r.checked)[1..] == r.checked && ([a] + r.deleted)[1..] == r.deleted;
      assert ([n] + r.reports)[1..] == r.reports;
    }
  }

  lemma SameAgentsWithout(es: seq<Entry>, i: nat, j: nat)
    requires i < |es| && j < |es| && es[i].answers != []
    ensures AgentsOf(Without(Used(es, i), j)) == AgentsOf(Without(es, j))
  {
  }

  // ---------------------------------------------------------------- the last exception

  /** What an agent still answers; nothing if it is not on the list. */
  function AnswersOf(es: seq<Entry>, a: Agent): seq<Answer> {
    if es == [] then []
    else if es[|es| - 1].agent == a then es[|es| - 1].answers
    else AnswersOf(es[..|es| - 1], a)
  }

  /** The k-th check gets the answer that is next after the earlier checks of the same agent. */
  function AnswerTo(es: seq<Entry>, checked: seq<Agent>, k: nat): Option<Answer>
    requires k < |checked|
  {
    var all, before := AnswersOf(es, checked[k]), multiset(checked[..k])[checked[k]];
    if before < |all| then Some(all[before]) else None
  }

  /** The text of the last exception thrown by these checks, and `message` if there was none. */
  function LastThrown(es: seq<Entry>, checked: seq<Agent>, message: string): string {
    if checked == [] then message
    else
      var k := |checked| - 1;
      match AnswerTo(es, checked, k)
      case Some(Throws(t)) => t
      case _ => LastThrown(es, checked[..k], message)
  }

  lemma {:induction false} AnswersAt(es: seq<Entry>, i: nat)
    requires Distinct(AgentsOf(es)) && i < |es|
    ensures AnswersOf(es, es[i].agent) == es[i].answers
  {
    var n := |es| - 1;
    NotTheSame(es, n, i);
    if i < n {
      assert AgentsOf(es[..n]) == AgentsOf(es)[..n];
      AnswersAt(es[..n], i);
    }
  }

  lemma {:induction false} NoAnswers(es: seq<Entry>, a: Agent)
    requires a !in AgentsOf(es)
    ensures AnswersOf(es, a) == []
  {
    if es != [] {
      var n := |es| - 1;
      assert AgentsOf(es)[n] == es[n].agent;
      assert AgentsOf(es[..n]) == AgentsOf(es)[..n];
      NoAnswers(es[..n], a);
    }
  }

  lemma {:induction false} OtherAnswers(es: seq<Entry>, i: nat, b: Agent)
    requires i < |es| && b != es[i].agent
    ensures AnswersOf(Without(es, i), b) == AnswersOf(es, b)
  {
    var n := |es| - 1;
    if i < n {
      OtherAnswers(es[..n], i, b);
      assert Without(es, i)[..n - 1] == Without(es[..n], i) && Without(es, i)[n - 1] == es[n];
    } else {
      assert Without(es, i) == es[..n];
    }
  }

  lemma {:induction false} OtherUsed(es: seq<Entry>, i: nat, b: Agent)
    requires i < |es| && b != es[i].agent && es[i].answers != []
    ensures AnswersOf(Used(es, i), b) == AnswersOf(es, b)
  {
    var n := |es| - 1;
    if i < n {
      OtherUsed(es[..n], i, b);
      assert Used(es, i)[..n] == Used(es[..n], i);
    } else {
      assert Used(es, i)[..n] == es[..n];
    }
  }

  /** What is left after one check of the i-th agent. */
  function LeftOver(es: seq<Entry>, i: nat): seq<Entry>
    requires i < |es|
  {
    if es[i].answers == [] then Without(es, i) else Used(es, i)
  }

  lemma LeftOverAnswers(es: seq<Entry>, i: nat, b: Agent)
    requires Distinct(AgentsOf(es)) && i < |es|
    ensures AnswersOf(LeftOver(es, i), b) ==
              var all := AnswersOf(es, b); if b == es[i].agent && all != [] then all[1..] else all
  {
    AnswersAt(es, i);
    if b != es[i].agent {
      OtherAnswers(es, i, b);
      if es[i].answers != [] {
        OtherUsed(es, i, b);
      }
    } else if es[i].answers == [] {
      AgentsWithout(es, i);
      NoAnswers(Without(es, i), b);
    } else {
      SameAgents(es, i);
      AnswersAt(Used(es, i), i);
    }
  }

  /** The first check goes to the i-th agent; the others get the same answers from what is left. */
  lemma {:induction false} FirstThrown(es: seq<Entry>, i: nat, checked: seq<Agent>, message: string)
    requires Distinct(AgentsOf(es)) && i < |es|
    ensures var m := if es[i].answers == [] then message
                     else match es[i].answers[0] case Alive => message case Throws(t) => t;
            LastThrown(es, [es[i].agent] + checked, message) == LastThrown(LeftOver(es, i), checked, m)
    decreases |checked|
  {
    hide AnswersOf, LeftOver, AgentsOf;
    var a := es[i].agent;
    AnswersAt(es, i);
    if checked == [] {
      assert [a] + checked == [a] && [a][..0] == [];
      assert LastThrown(es, [a][..0], message) == message;
    } else {
      hide AnswerTo, LastThrown, Distinct;
      var k := |checked| - 1;
      FirstThrown(es, i, checked[..k], message);
      LaterAnswer(es, i, checked, k);
      LastStep(es, [a] + checked, message);
      LastStep(LeftOver(es, i), checked,
               if es[i].answers == [] then message else match es[i].answers[0] case Alive => message case Throws(t) => t);
      assert ([a] + checked)[..k + 1] == [a] + checked[..k];
    }
  }

  lemma LaterAnswer(es: seq<Entry>, i: nat, checked: seq<Agent>, k: nat)
    requires Distinct(AgentsOf(es)) && i < |es| && k < |checked|
    ensures AnswerTo(es, [es[i].agent] + checked, k + 1) == AnswerTo(LeftOver(es, i), checked, k)
  {
    hide AnswersOf, LeftOver, AgentsOf, Distinct;
    var a := es[i].agent;
    assert ([a] + checked)[..k + 1] == [a] + checked[..k];
    LeftOverAnswers(es, i, checked[k]);
    OneMore(a, checked[..k], checked[k]);
  }

  lemma LastStep(es: seq<Entry>, checked: seq<Agent>, message: string)
    requires checked != []
    ensures var k := |checked| - 1;
            LastThrown(es, checked, message) ==
            match AnswerTo(es, checked, k) case Some(Throws(t)) => t case _ => LastThrown(es, checked[..k], message)
  {
    hide AnswerTo;
  }

  /** The message kept is that of the last exception any check has thrown. */
  lemma {:induction false} LastExceptionIsKept(es: seq<Entry>, i: nat, n: nat, message: string)
    requires if es == [] then i == 0 else i < |es|
    requires Distinct(AgentsOf(es))
    ensures var r := Watch(es, i, n, message); r.message == LastThrown(es, r.checked, message)
    decreases Checks(es)
  {
    hide Checks, LastThrown, AgentsOf, Distinct;
    if es == [] {
      NothingThrown(message);
    } else {
      ChecksSplit(es, i);
      if es[i].answers == [] {
        AgentsWithout(es, i);
        LastExceptionIsKept(Without(es, i), 0, n + 1, message);
        FirstThrown(es, i, Watch(Without(es, i), 0, n + 1, message).checked, message);
      } else {
        var m := match es[i].answers[0] case Alive => message case Throws(t) => t;
        SameAgents(es, i);
        LastExceptionIsKept(Used(es, i), Next(i, |es|), n + 1, m);
        FirstThrown(es, i, Watch(Used(es, i), Next(i, |es|), n + 1, m).checked, message);
      }
    }
  }

  lemma NothingThrown(message: string)
    ensures LastThrown([], [], message) == message
  {
  }

  // ---------------------------------------------------------------- the plugin

  class PluginImpl {
    var listeners: Agent?
    var lastErrorMessage: string
    /** The agents in list order. */
    ghost var spine: seq<Agent>
    /** Destroyed agents, the loop counts printed for them, and all checks, in order. */
    ghost var deleted: seq<Agent>
    ghost var reports: seq<nat>
    ghost var checked: seq<Agent>

    ghost predicate Valid()
      reads this`listeners, this`spine, spine`next
    {
      Distinct(spine) && Linked(listeners, spine)
    }

    ghost function Entries(): seq<Entry>
      reads this`spine, spine`answers
    {
      EntriesOf(spine)
    }

    constructor ()
      ensures Valid() && spine == [] && deleted == [] && checked == [] && reports == [] && lastErrorMessage == ""
    {
      listeners, lastErrorMessage := null, "";
      spine, deleted, checked, reports := [], [], [], [];
    }

    method AddAgent(listener: Agent)
      requires Valid() && listener !in spine
      modifies this, listener
      ensures Valid() && spine == [listener] + old(spine)
      ensures Entries() == [Entry(listener, listener.answers)] + old(Entries())
      ensures deleted == old(deleted) && checked == old(checked) && reports == old(reports)
    {
      hide EntriesOf, Linked, Distinct;
      listener.next := listeners;
      LinkedPrepend(listener, listeners, spine);
      DistinctPrepend(listener, spine);
      EntriesAppend([listener], spine);
      EntriesOfOne(listener);
      listeners := listener;
      spine := [listener] + spine;
    }

    /** The module count of `reportState`. */
    method CountModules() returns (activeModuleCount: nat)
      requires Valid()
      ensures activeModuleCount == |spine|
    {
      activeModuleCount := 0;
      var it := listeners;
      while it != null
        invariant 0 <= activeModuleCount <= |spine|
        invariant it == Follower(spine, activeModuleCount)
        decreases |spine| - activeModuleCount
      {
        activeModuleCount := activeModuleCount + 1;
        it := it.next;
      }
    }

    /** Unlink the i-th agent behind prev; it is destroyed. */
    method Unlink(prev: Agent?, it: Agent, ghost i: nat)
      requires Valid() && i < |spine| && it == spine[i] && prev == (if i == 0 then null else spine[i - 1])
      modifies this`listeners, this`spine, this`deleted, spine
      ensures Valid() && spine == Without(old(spine), i) && deleted == old(deleted) + [it]
      ensures Entries() == Without(old(Entries()), i)
    {
      hide EntriesOf, Distinct, Without, Follower;
      ghost var before := spine;
      EntriesDelete(spine, i);
      DistinctDelete(spine, i);
      FollowerDelete(spine, i);
      if prev != null {
        prev.next := it.next;
      } else {
        listeners := it.next;
      }
      spine := Without(spine, i);
      deleted := deleted + [it];
      forall k | 0 <= k < |spine| ensures spine[k].next == Follower(spine, k + 1) {
        var l := if k < i then k else k + 1;
        if i > 0 {
          NotPrevious(before, i, l);
        }
        assert old(before[l].next) == Follower(before, l + 1);
      }
    }

    /** Check the i-th agent. */
    method CheckAt(it: Agent, ghost i: nat) returns (ok: bool, thrown: Option<string>)
      requires Valid() && i < |spine| && it == spine[i]
      modifies it`answers
      ensures Valid() && |Entries()| == |spine|
      ensures ok == (old(Entries())[i].answers != [])
      ensures if ok then Entries() == Used(old(Entries()), i) && thrown == Thrown(old(Entries())[i].answers[0])
              else Entries() == old(Entries()) && thrown.None?
    {
      hide EntriesOf;
      EntriesAt(spine, i);
      ghost var es := Entries();
      label before:
      forall k | 0 <= k < |spine| ensures es[k] == Entry(spine[k], spine[k].answers) {
        EntriesAt(spine, k);
      }
      ok, thrown := it.Check();
      forall k | 0 <= k < |spine| ensures EntriesOf(spine)[k] == (if k == i && ok then Used(es, i)[k] else es[k]) {
        EntriesAt(spine, k);
        assert k != i ==> spine[k] != it && spine[k].answers == old@before(spine[k].answers);
      }
      assert Entries() == if ok then Used(es, i) else es;
    }

    /** `it` is the i-th agent, or null on an empty list; `prev` is null exactly at the head, and otherwise links to `it`. */
    ghost predicate At(prev: Agent?, it: Agent?, i: nat)
      reads this`spine
    {
      && (if spine == [] then i == 0 && it == null else i < |spine| && it == spine[i])
      && prev == if i == 0 then null else spine[i - 1]
    }

    lemma AtHead()
      requires Valid()
      ensures At(null, listeners, 0) && |Entries()| == |spine| && (listeners == null <==> spine == [])
    {
      hide Distinct, EntriesOf;
    }

    /** The next agent, or the head after the last one. */
    method Advance(it: Agent, ghost i: nat) returns (prev: Agent?, next: Agent?, ghost j: nat)
      requires Valid() && i < |spine| && it == spine[i]
      ensures j == Next(i, |spine|) && At(prev, next, j) && next != null
    {
      hide Distinct, EntriesOf;
      AtHead();
      assert spine[i].next == Follower(spine, i + 1);
      prev, next, j := it, it.next, i + 1;
      if next == null {
        prev, next, j := null, listeners, 0;
      }
    }

    /** The main loop: the list always holds the surviving agents in order, and it ends only on an empty list. */
    method MainLoop()
      requires Valid() && deleted == [] && checked == [] && reports == []
      modifies this, spine
      ensures Valid() && spine == [] && listeners == null
      ensures Outcome(checked, deleted, reports, lastErrorMessage) == old(Watch(Entries(), 0, 0, lastErrorMessage))
    {
      hide EntriesOf, Watch, Checks, After, Valid, Entries, Used, Without, Next;
      var n := 0;
      var prev: Agent? := null;
      var it := listeners;
      ghost var i := 0;
      ghost var whole := Watch(Entries(), 0, 0, lastErrorMessage);
      AtHead();
      NothingBefore(whole);
      while it != null
        invariant Valid() && |Entries()| == |spine| && At(prev, it, i)
        invariant forall k | 0 <= k < |spine| :: spine[k] in old(spine)
        invariant whole == After(checked, deleted, reports, Watch(Entries(), i, n, lastErrorMessage))
        decreases Checks(Entries())
      {
        ghost var es := Entries();
        ChecksSplit(es, i);
        EntryAt(i);
        var ok, thrown := CheckAt(it, i);
        if !ok {
          RefusedStep(es, i, n, lastErrorMessage, checked, deleted, reports);
          SpineShrinks(spine, i);
          Unlink(prev, it, i);
          checked, reports := checked + [it], reports + [n];
          AtHead();
          prev, it, i := null, listeners, 0;
        } else {
          KeptStep(es, i, n, lastErrorMessage, checked, deleted, reports);
          if thrown.Some? {
            lastErrorMessage := thrown.value;
          }
          checked := checked + [it];
          prev, it, i := Advance(it, i);
        }
        n := n + 1;
      }
      AtHead();
      WatchEnds(Entries(), n, lastErrorMessage, checked, deleted, reports);
    }

    lemma EntryAt(i: nat)
      requires i < |spine|
      ensures |Entries()| == |spine| && Entries()[i].agent == spine[i]
    {
      EntriesAt(spine, i);
    }
  }

  lemma SpineShrinks(spine: seq<Agent>, i: nat)
    requires i < |spine|
    ensures forall k | 0 <= k < |Without(spine, i)| :: Without(spine, i)[k] in spine
  {
  }

  /** What a run comes to, with what was done before it. */
  function After(checked: seq<Agent>, deleted: seq<Agent>, reports: seq<nat>, rest: Outcome): Outcome {
    Outcome(checked + rest.checked, deleted + rest.deleted, reports + rest.reports, rest.message)
  }

  lemma NothingBefore(rest: Outcome)
    ensures After([], [], [], rest) == rest
  {
  }

  lemma WatchEnds(es: seq<Entry>, n: nat, message: string, checked: seq<Agent>, deleted: seq<Agent>, reports: seq<nat>)
    requires es == []
    ensures After(checked, deleted, reports, Watch(es, 0, n, message)) == Outcome(checked, deleted, reports, message)
  {
  }

  /** One round of the loop: the agent refuses and is deleted. */
  lemma RefusedStep(es: seq<Entry>, i: nat, n: nat, message: string,
                    checked: seq<Agent>, deleted: seq<Agent>, reports: seq<nat>)
    requires i < |es| && es[i].answers == []
    ensures After(checked, deleted, reports, Watch(es, i, n, message)) ==
              var a := es[i].agent;
              After(checked + [a], deleted + [a], reports + [n], Watch(Without(es, i), 0, n + 1, message))
  {
    var a := es[i].agent;
    var r := Watch(Without(es, i), 0, n + 1, message);
    hide Without, Checks;
    assert Watch(es, i, n, message) == Outcome([a] + r.checked, [a] + r.deleted, [n] + r.reports, r.message);
    Shifted(checked, a, r.checked);
    Shifted(deleted, a, r.deleted);
    Shifted(reports, n, r.reports);
  }

  /** One round of the loop: the agent answers, or throws, and stays. */
  lemma KeptStep(es: seq<Entry>, i: nat, n: nat, message: string,
                 checked: seq<Agent>, deleted: seq<Agent>, reports: seq<nat>)
    requires i < |es| && es[i].answers != []
    ensures After(checked, deleted, reports, Watch(es, i, n, message)) ==
              var m := match es[i].answers[0] case Alive => message case Throws(t) => t;
              After(checked + [es[i].agent], deleted, reports, Watch(Used(es, i), Next(i, |es|), n + 1, m))
  {
    var m := match es[i].answers[0] case Alive => message case Throws(t) => t;
    var r := Watch(Used(es, i), Next(i, |es|), n + 1, m);
    hide Used, Checks;
    assert Watch(es, i, n, message) == r.(checked := [es[i].agent] + r.checked);
    Shifted(checked, es[i].agent, r.checked);
  }

  lemma Shifted<T>(a: seq<T>, x: T, b: seq<T>)
    ensures a + ([x] + b) == a + [x] + b
  {
  }
}
