/** getNextTaskForHeartbeat (src/TaskManager.js:97-110): the pending tasks are
    copied, sorted stably by the comparator below and the head is returned.
    The stable sort is modelled as an insertion sort. */
module Selector {
  import opened Util
  import opened Tasks

  /** The comparator handed to `sort`: negative when `a` goes first. Higher
      rank first, then the older creation time. */
  function Compare(a: Task, b: Task): (r: int)
    ensures r < 0 <==> Rank(a.priority) > Rank(b.priority) ||
                       (Rank(a.priority) == Rank(b.priority) && a.createdAt < b.createdAt)
    ensures r == 0 <==> a.priority == b.priority && a.createdAt == b.createdAt
  {
    var prioDiff := Rank(b.priority) - Rank(a.priority);
    if prioDiff != 0 then prioDiff else a.createdAt - b.createdAt
  }

  /** `a` is no later than `b` in the order the comparator defines. */
  predicate NoLater(a: Task, b: Task) {
    Compare(a, b) <= 0
  }

  lemma CompareAntisymmetric(a: Task, b: Task)
    ensures Compare(a, b) == -Compare(b, a)
  {
  }

  lemma NoLaterTransitive(a: Task, b: Task, c: Task)
    requires NoLater(a, b) && NoLater(b, c)
    ensures NoLater(a, c)
  {
  }

  /** Insert `x` in front of the first element that does not strictly precede
      it; elements equal to `x` stay behind it. */
  function Insert(x: Task, s: seq<Task>): (r: seq<Task>)
    ensures multiset(r) == multiset(s) + multiset{x}
    ensures r[0] == x || (s != [] && r[0] == s[0])
  {
    if s == [] || Compare(s[0], x) >= 0 then [x] + s
    else
      assert s == [s[0]] + s[1..];
      [s[0]] + Insert(x, s[1..])
  }

  /** The stable sort: each element is inserted, from the back, in front of the
      later elements it does not strictly follow. */
  function SortByPriorityAge(s: seq<Task>): (r: seq<Task>)
    ensures multiset(r) == multiset(s)
  {
    if s == [] then []
    else
      assert s == [s[0]] + s[1..];
      Insert(s[0], SortByPriorityAge(s[1..]))
  }

  predicate Sorted(s: seq<Task>) {
    forall i, j :: 0 <= i < j < |s| ==> NoLater(s[i], s[j])
  }

  lemma {:induction false} InsertSorted(x: Task, s: seq<Task>)
    requires Sorted(s)
    ensures Sorted(Insert(x, s))
  {
    var r := Insert(x, s);
    if s == [] || Compare(s[0], x) >= 0 {
      forall j | 1 <= j < |r| ensures NoLater(r[0], r[j]) {
        assert r[j] == s[j - 1];
        NoLaterTransitive(x, s[0], s[j - 1]);
      }
    } else {
      InsertSorted(x, s[1..]);
      var tail := Insert(x, s[1..]);
      assert r == [s[0]] + tail;
      forall j | 0 <= j < |tail| ensures NoLater(s[0], tail[j]) {
        assert tail[j] in multiset(tail);
        assert tail[j] == x || tail[j] in s[1..];
      }
    }
  }

  /** The result of the sort is a permutation of its input, in order. */
  lemma {:induction false} SortSorted(s: seq<Task>)
    ensures Sorted(SortByPriorityAge(s))
    ensures multiset(SortByPriorityAge(s)) == multiset(s)
  {
    if s != [] {
      SortSorted(s[1..]);
      InsertSorted(s[0], SortByPriorityAge(s[1..]));
    }
  }

  /** Position `k` holds the element a stable sort puts first: it strictly
      precedes every earlier element and is no later than every later one. */
  predicate IsChoice(s: seq<Task>, k: int) {
    && 0 <= k < |s|
    && (forall j :: 0 <= j < k ==> Compare(s[k], s[j]) < 0)
    && (forall j :: k < j < |s| ==> NoLater(s[k], s[j]))
  }

  /** At most one position is the choice. */
  lemma ChoiceUnique(s: seq<Task>, k: int, m: int)
    requires IsChoice(s, k) && IsChoice(s, m)
    ensures k == m
  {
    if k < m {
      CompareAntisymmetric(s[m], s[k]);
    } else if m < k {
      CompareAntisymmetric(s[k], s[m]);
    }
  }

  /** The choice is no later than any element. */
  lemma ChoiceNoLater(s: seq<Task>, k: int, j: int)
    requires IsChoice(s, k) && 0 <= j < |s|
    ensures NoLater(s[k], s[j])
  {
    if j < k {
      assert Compare(s[k], s[j]) < 0;
    }
  }

  /** Inserting `x` in front of a sequence puts `x` first exactly when the old
      head does not strictly precede it. */
  lemma InsertHead(x: Task, s: seq<Task>)
    requires s != []
    ensures Insert(x, s)[0] == if Compare(s[0], x) >= 0 then x else s[0]
  {
  }

  /** The head of the stable sort is the element at the choice position. */
  lemma {:induction false} SortHeadIsChoice(s: seq<Task>)
    requires s != []
    ensures exists k :: IsChoice(s, k) && SortByPriorityAge(s)[0] == s[k]
  {
    var rest := s[1..];
    if rest == [] {
      assert IsChoice(s, 0);
    } else {
      SortHeadIsChoice(rest);
      var sortedRest := SortByPriorityAge(rest);
      var k' :| IsChoice(rest, k') && sortedRest[0] == rest[k'];
      var best := rest[k'];
      assert SortByPriorityAge(s) == Insert(s[0], sortedRest);
      InsertHead(s[0], sortedRest);
      if Compare(best, s[0]) >= 0 {
        CompareAntisymmetric(best, s[0]);
        forall j | 0 < j < |s| ensures NoLater(s[0], s[j]) {
          assert s[j] == rest[j - 1];
          ChoiceNoLater(rest, k', j - 1);
          NoLaterTransitive(s[0], best, s[j]);
        }
        assert IsChoice(s, 0);
      } else {
        assert s[k' + 1] == best;
        forall j | 0 < j < |s| && j != k' + 1
          ensures if j < k' + 1 then Compare(best, s[j]) < 0 else NoLater(best, s[j])
        {
          assert s[j] == rest[j - 1];
        }
        assert IsChoice(s, k' + 1);
      }
    }
  }

  /** getNextTaskForHeartbeat: the head of the sorted pending tasks, or null
      when there are none. */
  function NextTaskForHeartbeat(tasks: seq<Task>): (r: Option<Task>)
    ensures r.None? <==> forall t :: t in tasks ==> t.status != Pending
    ensures r.Some? ==> r.value in tasks && r.value.status == Pending
  {
    var pending := PendingTasks(tasks);
    if pending == [] then None
    else
      var sorted := SortByPriorityAge(pending);
      assert sorted[0] in multiset(pending);
      Some(sorted[0])
  }

  /** The selected task has the highest priority rank among the pending tasks,
      the oldest creation time among those of that rank, and, among those
      equal in both, the first position in list order. */
  lemma NextTaskIsHighestOldest(tasks: seq<Task>)
    ensures match NextTaskForHeartbeat(tasks)
      case None => true
      case Some(n) =>
        && (forall t :: t in tasks && t.status == Pending ==> Rank(t.priority) <= Rank(n.priority))
        && (forall t :: t in tasks && t.status == Pending && Rank(t.priority) == Rank(n.priority) ==>
              n.createdAt <= t.createdAt)
        && exists k :: IsChoice(PendingTasks(tasks), k) && n == PendingTasks(tasks)[k]
  {
    var pending := PendingTasks(tasks);
    if pending != [] {
      SortHeadIsChoice(pending);
      var k :| IsChoice(pending, k) && SortByPriorityAge(pending)[0] == pending[k];
      forall t | t in tasks && t.status == Pending ensures NoLater(pending[k], t) {
        var j :| 0 <= j < |pending| && pending[j] == t;
        if j < k {
          assert Compare(pending[k], pending[j]) < 0;
        }
      }
    }
  }
}
