/**
 * The list component: which of four screens it shows (loading, error, empty, or
 * the list), how the list splits into pending and completed sections, and the
 * summary counts with the completion percentage.
 */
module TaskList {
  import opened Tasks

  /** `tasks.filter(task => !task.completed)`. */
  function Pending(ts: seq<Task>): (r: seq<Task>)
    ensures |r| <= |ts|
    ensures forall i :: 0 <= i < |r| ==> !r[i].completed
    decreases |ts|
  {
    if ts == [] then []
    else (if ts[0].completed then [] else [ts[0]]) + Pending(ts[1..])
  }

  /** `tasks.filter(task => task.completed)`. */
  function Completed(ts: seq<Task>): (r: seq<Task>)
    ensures |r| <= |ts|
    ensures forall i :: 0 <= i < |r| ==> r[i].completed
    decreases |ts|
  {
    if ts == [] then []
    else (if ts[0].completed then [ts[0]] else []) + Completed(ts[1..])
  }

  /**
   * Every task lands in exactly one section: the two sections together hold the
   * list's tasks, each as many times as the list does, so the counts add up.
   */
  lemma {:induction false} Partition(ts: seq<Task>)
    ensures multiset(Pending(ts)) + multiset(Completed(ts)) == multiset(ts)
    ensures |Pending(ts)| + |Completed(ts)| == |ts|
    decreases |ts|
  {
    if ts != [] {
      Partition(ts[1..]);
      assert ts == [ts[0]] + ts[1..];
    }
  }

  /** A task is in the pending section exactly when it is in the list and not completed. */
  lemma {:induction false} PendingMembers(ts: seq<Task>, t: Task)
    ensures t in Pending(ts) <==> t in ts && !t.completed
    decreases |ts|
  {
    if ts != [] {
      PendingMembers(ts[1..], t);
      assert ts == [ts[0]] + ts[1..];
    }
  }

  /** A task is in the completed section exactly when it is in the list and completed. */
  lemma {:induction false} CompletedMembers(ts: seq<Task>, t: Task)
    ensures t in Completed(ts) <==> t in ts && t.completed
    decreases |ts|
  {
    if ts != [] {
      CompletedMembers(ts[1..], t);
      assert ts == [ts[0]] + ts[1..];
    }
  }

  /** The pending section keeps the list's order: it distributes over concatenation. */
  lemma {:induction false} PendingKeepsOrder(a: seq<Task>, b: seq<Task>)
    ensures Pending(a + b) == Pending(a) + Pending(b)
    decreases |a|
  {
    if a == [] {
      assert a + b == b;
    } else {
      assert (a + b)[0] == a[0] && (a + b)[1..] == a[1..] + b;
      PendingKeepsOrder(a[1..], b);
    }
  }

  /** The completed section keeps the list's order: it distributes over concatenation. */
  lemma {:induction false} CompletedKeepsOrder(a: seq<Task>, b: seq<Task>)
    ensures Completed(a + b) == Completed(a) + Completed(b)
    decreases |a|
  {
    if a == [] {
      assert a + b == b;
    } else {
      assert (a + b)[0] == a[0] && (a + b)[1..] == a[1..] + b;
      CompletedKeepsOrder(a[1..], b);
    }
  }

  /**
   * `Math.round(completed / total * 100)` for a non-empty list, and 0 for an empty
   * one. The ratio is taken as an exact fraction: rounding half up of `100c / t` is
   * the floor of `(200c + t) / 2t`.
   */
  function Percentage(completed: nat, total: nat): (r: int)
    ensures r >= 0
    ensures total == 0 ==> r == 0
  {
    if total > 0 then (200 * completed + total) / (2 * total) else 0
  }

  /**
   * The percentage is 100·completed/total rounded to the nearest integer (halves
   * up), lies in 0..100, is 0 with nothing completed and 100 with everything.
   */
  lemma PercentageRounds(completed: nat, total: nat)
    requires completed <= total
    ensures var r := Percentage(completed, total);
      && 0 <= r <= 100
      && (total > 0 ==> 2 * total * r <= 200 * completed + total < 2 * total * (r + 1))
      && (completed == 0 ==> r == 0)
      && (0 < total == completed ==> r == 100)
  {
    if total > 0 {
      var d, n := 2 * total, 200 * completed + total;
      var r := n / d;
      DivBounds(n, d);
      assert d * (r + 1) == d * r + d;
      if r > 100 {
        MulMonotone(d, 101, r);
      }
      if completed == 0 {
        DivUnique(n, d, 0);
      }
      if completed == total {
        DivUnique(n, d, 100);
      }
    }
  }

  /** Euclidean division by a positive divisor brackets the dividend. */
  lemma DivBounds(n: nat, d: int)
    requires d > 0
    ensures 0 <= n / d && d * (n / d) <= n < d * (n / d) + d
  {
  }

  /** Multiplying by a positive factor keeps order. */
  lemma MulMonotone(d: int, a: int, b: int)
    requires d > 0 && a <= b
    ensures d * a <= d * b
  {
  }

  /** The quotient is the one multiple that brackets the dividend. */
  lemma DivUnique(n: nat, d: int, q: int)
    requires d > 0 && d * q <= n < d * q + d
    ensures n / d == q
  {
    DivBounds(n, d);
    var r := n / d;
    if r < q {
      assert d * (r + 1) == d * r + d;
      MulMonotone(d, r + 1, q);
    } else if r > q {
      assert d * (q + 1) == d * q + d;
      MulMonotone(d, q + 1, r);
    }
  }

  /** The summary line under the sections. */
  datatype Stats = Stats(total: nat, pending: nat, completed: nat, percentage: int)

  /** The screen the component renders. */
  datatype View =
    | LoadingView
    | ErrorView(message: string)
    | EmptyView
    | ListView(pending: seq<Task>, completed: seq<Task>, showPending: bool, showCompleted: bool, stats: Stats)

  /**
   * Loading wins over an error, an error over an empty list; otherwise the two
   * sections, each shown only when it has a task, and the summary.
   */
  function Render(tasks: seq<Task>, loading: bool, error: string): (v: View)
    ensures loading ==> v == LoadingView
    ensures !loading && error != "" ==> v == ErrorView(error)
    ensures !loading && error == "" ==> (v == EmptyView <==> tasks == [])
  {
    if loading then LoadingView
    else if error != "" then ErrorView(error)
    else if |tasks| == 0 then EmptyView
    else
      var pending := Pending(tasks);
      var completed := Completed(tasks);
      ListView(pending, completed, |pending| > 0, |completed| > 0,
               Stats(|tasks|, |pending|, |completed|, Percentage(|completed|, |tasks|)))
  }

  /**
   * The list screen is consistent: at least one section is shown, a section is shown
   * exactly when it has tasks, the counts add up to the total, and the percentage
   * is in 0..100.
   */
  lemma ListViewConsistent(tasks: seq<Task>, error: string)
    requires error == "" && tasks != []
    ensures var v := Render(tasks, false, error);
      && v.ListView?
      && (v.showPending || v.showCompleted)
      && (v.showPending <==> v.pending != []) && (v.showCompleted <==> v.completed != [])
      && v.stats.pending + v.stats.completed == v.stats.total == |tasks|
      && 0 <= v.stats.percentage <= 100
  {
    Partition(tasks);
    PercentageRounds(|Completed(tasks)|, |tasks|);
  }
}
