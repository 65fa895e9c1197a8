/** The task collection and what each operation of the task manager does to it,
    as functions on values. The collection is ordered, newest task first. */
module Tasks {
  import opened Text

  /** One to-do record as it is stored: `{id, text, done}`. */
  datatype Task = Task(id: string, text: string, done: bool)

  predicate HasId(ts: seq<Task>, id: string) {
    exists i :: 0 <= i < |ts| && ts[i].id == id
  }

  /** No two records share an id. */
  predicate UniqueIds(ts: seq<Task>) {
    forall i, j :: 0 <= i < j < |ts| ==> ts[i].id != ts[j].id
  }

  /** A text the manager is willing to store: non-empty and already trimmed. */
  predicate ValidText(s: string) {
    s != [] && Trimmed(s)
  }

  /** The invariant every collection the manager writes should keep. */
  predicate WellFormed(ts: seq<Task>) {
    UniqueIds(ts) && forall i :: 0 <= i < |ts| ==> ValidText(ts[i].text)
  }

  /** `tasks.findIndex(t => t.id === id)`: the first position holding `id`, or -1. */
  function FindIndex(ts: seq<Task>, id: string): (r: int)
    ensures -1 <= r < |ts|
    ensures r == -1 <==> !HasId(ts, id)
    ensures r >= 0 ==> ts[r].id == id && forall j :: 0 <= j < r ==> ts[j].id != id
  {
    if ts == [] then -1
    else if ts[0].id == id then 0
    else
      var k := FindIndex(ts[1..], id);
      assert forall j :: 1 <= j < |ts| ==> ts[j] == ts[1..][j - 1];
      if k == -1 then -1 else k + 1
  }

  /** Where an id first occurs depends only on the ids, position by position. */
  lemma {:induction false} FindIndexSameIds(ts: seq<Task>, us: seq<Task>, id: string)
    requires |ts| == |us|
    requires forall k :: 0 <= k < |ts| ==> ts[k].id == us[k].id
    ensures FindIndex(ts, id) == FindIndex(us, id)
  {
    if ts != [] && ts[0].id != id {
      FindIndexSameIds(ts[1..], us[1..], id);
    }
  }

  // ---- addTask ----

  /** The collection after adding `raw`: a new undone record carrying the trimmed
      text, put in front of the old ones. */
  function AfterAdd(ts: seq<Task>, id: string, raw: string): (r: seq<Task>)
    requires Trim(raw) != []
    ensures |r| == |ts| + 1 && r[1..] == ts
    ensures r[0] == Task(id, Trim(raw), false)
  {
    [Task(id, Trim(raw), false)] + ts
  }

  /** Adding under an id not yet used keeps the collection well formed. */
  lemma AddWellFormed(ts: seq<Task>, id: string, raw: string)
    requires WellFormed(ts) && !HasId(ts, id) && Trim(raw) != []
    ensures WellFormed(AfterAdd(ts, id, raw))
  {
    var r := AfterAdd(ts, id, raw);
    TrimSpec(raw);
    forall i, j | 0 <= i < j < |r| ensures r[i].id != r[j].id {
      if i == 0 {
        assert ts[j - 1].id == r[j].id;
      } else {
        assert r[i] == ts[i - 1] && r[j] == ts[j - 1];
      }
    }
    forall i | 0 <= i < |r| ensures ValidText(r[i].text) {
      if i > 0 { assert r[i] == ts[i - 1]; }
    }
  }

  // ---- removeTask ----

  /** `tasks.filter(t => t.id !== id)`. */
  function AfterRemove(ts: seq<Task>, id: string): (r: seq<Task>)
    ensures |r| <= |ts|
    ensures !HasId(r, id)
    ensures forall t :: t in r ==> t in ts
  {
    if ts == [] then []
    else
      var rest := AfterRemove(ts[1..], id);
      assert forall t :: t in ts[1..] ==> t in ts;
      if ts[0].id == id then rest
      else
        assert forall k :: 1 <= k < |rest| + 1 ==> ([ts[0]] + rest)[k] == rest[k - 1];
        [ts[0]] + rest
  }

  /** Every record with another id survives the removal. */
  lemma {:induction false} RemoveKeepsOthers(ts: seq<Task>, id: string, t: Task)
    requires t in ts && t.id != id
    ensures t in AfterRemove(ts, id)
  {
    if ts[0] != t {
      assert t in ts[1..];
      RemoveKeepsOthers(ts[1..], id, t);
    }
  }

  /** Removal works piecewise, so the survivors keep their relative order. */
  lemma {:induction false} RemoveAppend(a: seq<Task>, b: seq<Task>, id: string)
    ensures AfterRemove(a + b, id) == AfterRemove(a, id) + AfterRemove(b, id)
  {
    if a != [] {
      assert (a + b)[1..] == a[1..] + b;
      RemoveAppend(a[1..], b, id);
    } else {
      assert a + b == b;
    }
  }

  /** Removing an id that is not there changes nothing. */
  lemma {:induction false} RemoveAbsent(ts: seq<Task>, id: string)
    requires !HasId(ts, id)
    ensures AfterRemove(ts, id) == ts
  {
    if ts != [] {
      assert ts[0].id != id;
      assert !HasId(ts[1..], id) by {
        forall i | 0 <= i < |ts[1..]| ensures ts[1..][i].id != id {
          assert ts[1..][i] == ts[i + 1];
        }
      }
      RemoveAbsent(ts[1..], id);
      assert [ts[0]] + ts[1..] == ts;
    }
  }

  /** With unique ids, removing a present id drops exactly one record. */
  lemma {:induction false} RemoveUniqueLength(ts: seq<Task>, id: string)
    requires UniqueIds(ts) && HasId(ts, id)
    ensures |AfterRemove(ts, id)| == |ts| - 1
  {
    assert UniqueIds(ts[1..]) by {
      forall i, j | 0 <= i < j < |ts[1..]| ensures ts[1..][i].id != ts[1..][j].id {
        assert ts[1..][i] == ts[i + 1] && ts[1..][j] == ts[j + 1];
      }
    }
    if ts[0].id == id {
      assert !HasId(ts[1..], id) by {
        forall i | 0 <= i < |ts[1..]| ensures ts[1..][i].id != id {
          assert ts[1..][i] == ts[i + 1];
        }
      }
      RemoveAbsent(ts[1..], id);
    } else {
      var i :| 0 <= i < |ts| && ts[i].id == id;
      assert ts[1..][i - 1].id == id;
      RemoveUniqueLength(ts[1..], id);
    }
  }

  /** Removal keeps the collection well formed. */
  lemma {:induction false} RemoveWellFormed(ts: seq<Task>, id: string)
    requires WellFormed(ts)
    ensures WellFormed(AfterRemove(ts, id))
  {
    if ts != [] {
      var tail := ts[1..];
      assert WellFormed(tail) by {
        forall i, j | 0 <= i < j < |tail| ensures tail[i].id != tail[j].id {
          assert tail[i] == ts[i + 1] && tail[j] == ts[j + 1];
        }
        forall i | 0 <= i < |tail| ensures ValidText(tail[i].text) {
          assert tail[i] == ts[i + 1];
        }
      }
      RemoveWellFormed(tail, id);
      var rest := AfterRemove(tail, id);
      if ts[0].id != id {
        var r := [ts[0]] + rest;
        forall j | 0 <= j < |rest| ensures rest[j].id != ts[0].id {
          assert rest[j] in tail;
          var k :| 0 <= k < |tail| && tail[k] == rest[j];
          assert tail[k] == ts[k + 1];
        }
        forall i, j | 0 <= i < j < |r| ensures r[i].id != r[j].id {
          assert r[j] == rest[j - 1];
          if i > 0 { assert r[i] == rest[i - 1]; }
        }
        forall i | 0 <= i < |r| ensures ValidText(r[i].text) {
          if i > 0 { assert r[i] == rest[i - 1]; }
        }
      }
    }
  }

  // ---- toggleTask ----

  /** Flips `done` on the first record holding `id`; no change when there is none. */
  function AfterToggle(ts: seq<Task>, id: string): seq<Task>
  {
    var i := FindIndex(ts, id);
    if i < 0 then ts else ts[i := ts[i].(done := !ts[i].done)]
  }

  /** Toggling keeps length, ids and texts; `done` changes at the first match only. */
  lemma ToggleShape(ts: seq<Task>, id: string)
    ensures |AfterToggle(ts, id)| == |ts|
    ensures forall k :: 0 <= k < |ts| ==>
      AfterToggle(ts, id)[k].id == ts[k].id && AfterToggle(ts, id)[k].text == ts[k].text
    ensures forall k :: 0 <= k < |ts| ==>
      AfterToggle(ts, id)[k].done == (if k == FindIndex(ts, id) then !ts[k].done else ts[k].done)
    ensures !HasId(ts, id) ==> AfterToggle(ts, id) == ts
  {
  }

  /** Toggling the same id twice restores the collection. */
  lemma ToggleTwice(ts: seq<Task>, id: string)
    ensures AfterToggle(AfterToggle(ts, id), id) == ts
  {
    var once := AfterToggle(ts, id);
    ToggleShape(ts, id);
    FindIndexSameIds(once, ts, id);
  }

  /** Toggling keeps the collection well formed. */
  lemma ToggleWellFormed(ts: seq<Task>, id: string)
    requires WellFormed(ts)
    ensures WellFormed(AfterToggle(ts, id))
  {
    ToggleShape(ts, id);
  }

  // ---- edit: finish(save) ----

  /** The collection `finish(save)` writes back for the record at `idx`: on save with
      a value that trims to something, that record's text becomes the trimmed value;
      otherwise the collection is written back as it was. */
  function AfterEdit(ts: seq<Task>, idx: nat, save: bool, value: string): seq<Task>
    requires idx < |ts|
  {
    if save && Trim(value) != [] then ts[idx := ts[idx].(text := Trim(value))] else ts
  }

  /** Editing never changes the length, an id or a `done` flag, and only the text
      at `idx` can change. */
  lemma EditShape(ts: seq<Task>, idx: nat, save: bool, value: string)
    requires idx < |ts|
    ensures |AfterEdit(ts, idx, save, value)| == |ts|
    ensures forall k :: 0 <= k < |ts| ==>
      AfterEdit(ts, idx, save, value)[k].id == ts[k].id
      && AfterEdit(ts, idx, save, value)[k].done == ts[k].done
    ensures forall k :: 0 <= k < |ts| && k != idx ==> AfterEdit(ts, idx, save, value)[k] == ts[k]
    ensures AfterEdit(ts, idx, save, value)[idx].text
      == if save && Trim(value) != [] then Trim(value) else ts[idx].text
  {
  }

  /** Editing keeps the collection well formed. */
  lemma EditWellFormed(ts: seq<Task>, idx: nat, save: bool, value: string)
    requires idx < |ts| && WellFormed(ts)
    ensures WellFormed(AfterEdit(ts, idx, save, value))
  {
    EditShape(ts, idx, save, value);
    TrimSpec(value);
  }

  // ---- updateMeta ----

  /** `tasks.filter(t => t.done).length`. */
  function CountDone(ts: seq<Task>): (n: nat)
    ensures n <= |ts|
    ensures n == 0 <==> forall k :: 0 <= k < |ts| ==> !ts[k].done
    ensures n == |ts| <==> forall k :: 0 <= k < |ts| ==> ts[k].done
  {
    if ts == [] then 0
    else
      var rest := CountDone(ts[1..]);
      assert forall k :: 1 <= k < |ts| ==> ts[k] == ts[1..][k - 1];
      (if ts[0].done then 1 else 0) + rest
  }

  function Bit(b: bool): nat { if b then 1 else 0 }

  /** Replacing one record changes the completed count by the change in its flag. */
  lemma {:induction false} CountDoneUpdate(ts: seq<Task>, i: nat, t: Task)
    requires i < |ts|
    ensures CountDone(ts[i := t]) + Bit(ts[i].done) == CountDone(ts) + Bit(t.done)
  {
    if i > 0 {
      CountDoneUpdate(ts[1..], i - 1, t);
      assert ts[i := t][1..] == ts[1..][i - 1 := t];
    }
  }

  /** Toggling a present id moves the completed count by exactly one. */
  lemma ToggleCount(ts: seq<Task>, id: string)
    requires HasId(ts, id)
    ensures var i := FindIndex(ts, id);
      CountDone(AfterToggle(ts, id)) == if ts[i].done then CountDone(ts) - 1 else CountDone(ts) + 1
  {
    var i := FindIndex(ts, id);
    CountDoneUpdate(ts, i, ts[i].(done := !ts[i].done));
  }

  /** What the summary line reports. */
  datatype Summary = Summary(total: nat, completed: nat)

  /** Total records and completed records; an empty collection reports zero and zero. */
  function Summarize(ts: seq<Task>): (s: Summary)
    ensures s.completed <= s.total == |ts|
    ensures ts == [] ==> s == Summary(0, 0)
  {
    Summary(|ts|, CountDone(ts))
  }

  /** The words between the two counts: " task — " or " tasks — "; "task" takes
      an "s" unless the total is one. */
  function Middle(total: nat): (m: string)
    ensures m != [] && m[0] == ' '
  {
    " task" + (if total != 1 then "s" else "") + " \U{2014} "
  }

  /** The sentence `You have N task(s) — C completed.`. */
  function Sentence(s: Summary): string {
    "You have " + (Decimal(s.total) + (Middle(s.total) + (Decimal(s.completed) + " completed.")))
  }

  /** The summary line shown for a collection. */
  function MetaText(ts: seq<Task>): string {
    Sentence(Summarize(ts))
  }

  /** Equal strings with equal prefixes have equal remainders. */
  lemma DropPrefix(p: string, x: string, y: string)
    requires p + x == p + y
    ensures x == y
  {
    assert x == (p + x)[|p|..];
    assert y == (p + y)[|p|..];
  }

  /** A digit string followed by a non-digit can be split off unambiguously. */
  lemma DigitsPrefix(d1: string, d2: string, r1: string, r2: string)
    requires forall k :: 0 <= k < |d1| ==> IsDigit(d1[k])
    requires forall k :: 0 <= k < |d2| ==> IsDigit(d2[k])
    requires r1 != [] && !IsDigit(r1[0]) && r2 != [] && !IsDigit(r2[0])
    requires d1 + r1 == d2 + r2
    ensures d1 == d2 && r1 == r2
  {
    assert |d1| == |d2| by {
      assert forall k :: 0 <= k < |d1| ==> (d1 + r1)[k] == d1[k];
      assert forall k :: 0 <= k < |d2| ==> (d2 + r2)[k] == d2[k];
      assert (d1 + r1)[|d1|] == r1[0];
      assert (d2 + r2)[|d2|] == r2[0];
    }
    assert d1 == (d1 + r1)[..|d1|] && d2 == (d2 + r2)[..|d2|];
    assert r1 == (d1 + r1)[|d1|..] && r2 == (d2 + r2)[|d2|..];
  }

  /** The sentence determines the counts: two summaries that read the same are the same. */
  lemma SentenceInjective(s1: Summary, s2: Summary)
    requires Sentence(s1) == Sentence(s2)
    ensures s1 == s2
  {
    var end := " completed.";
    var rest1 := Middle(s1.total) + (Decimal(s1.completed) + end);
    var rest2 := Middle(s2.total) + (Decimal(s2.completed) + end);
    DropPrefix("You have ", Decimal(s1.total) + rest1, Decimal(s2.total) + rest2);
    DigitsPrefix(Decimal(s1.total), Decimal(s2.total), rest1, rest2);
    DecimalInjective(s1.total, s2.total);
    DropPrefix(Middle(s1.total), Decimal(s1.completed) + end, Decimal(s2.completed) + end);
    DigitsPrefix(Decimal(s1.completed), Decimal(s2.completed), end, end);
    DecimalInjective(s1.completed, s2.completed);
  }

  /** Equal summary lines mean equal totals and equal completed counts. */
  lemma MetaTextReportsCounts(a: seq<Task>, b: seq<Task>)
    requires MetaText(a) == MetaText(b)
    ensures |a| == |b| && CountDone(a) == CountDone(b)
  {
    SentenceInjective(Summarize(a), Summarize(b));
  }
}
