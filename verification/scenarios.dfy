/** The worked examples of the task manager's behaviour, stated on the
    collection functions and the summary sentence. */
module Scenarios {
  import opened Text
  import opened Tasks
  import opened Storage

  /** "task" takes an "s" exactly when the total is not one. */
  lemma PluralRule(total: nat)
    ensures Middle(total) == " tasks \U{2014} " <==> total != 1
    ensures Middle(total) == " task \U{2014} " <==> total == 1
  {
    assert " tasks \U{2014} " != " task \U{2014} " by {
      assert |" tasks \U{2014} "| != |" task \U{2014} "|;
    }
  }

  /** The summary line for two tasks, none completed. */
  lemma SentenceTwoNone()
    ensures Sentence(Summary(2, 0)) == "You have 2 tasks \U{2014} 0 completed."
  {
    PluralRule(2);
    assert Decimal(2) == "2" && Decimal(0) == "0";
    assert "You have " + ("2" + (" tasks \U{2014} " + ("0" + " completed.")))
      == "You have 2 tasks \U{2014} 0 completed.";
  }

  /** The summary line for two tasks, one completed. */
  lemma SentenceTwoOne()
    ensures Sentence(Summary(2, 1)) == "You have 2 tasks \U{2014} 1 completed."
  {
    PluralRule(2);
    assert Decimal(2) == "2" && Decimal(1) == "1";
    assert "You have " + ("2" + (" tasks \U{2014} " + ("1" + " completed.")))
      == "You have 2 tasks \U{2014} 1 completed.";
  }

  /** Rendering the empty collection reports zero tasks, zero completed. */
  lemma SentenceEmpty()
    ensures MetaText([]) == "You have 0 tasks \U{2014} 0 completed."
  {
    PluralRule(0);
    assert Summarize([]) == Summary(0, 0);
    assert Decimal(0) == "0";
    assert "You have " + ("0" + (" tasks \U{2014} " + ("0" + " completed.")))
      == "You have 0 tasks \U{2014} 0 completed.";
  }

  /** From an empty store, adding "Buy milk" and then "Walk dog" lists the newer
      task first, both undone. */
  lemma {:induction false} ScenarioTwoAdds(a: string, b: string)
    ensures AfterAdd(AfterAdd(Load(Absent), a, "Buy milk"), b, "Walk dog")
      == [Task(b, "Walk dog", false), Task(a, "Buy milk", false)]
  {
    TrimOfTrimmed("Buy milk");
    TrimOfTrimmed("Walk dog");
  }

  /** That collection is reported as two tasks, none completed; after toggling
      "Buy milk", as two tasks, one completed. */
  lemma {:induction false} ScenarioSummaries(a: string, b: string)
    requires a != b
    ensures var ts := [Task(b, "Walk dog", false), Task(a, "Buy milk", false)];
      MetaText(ts) == "You have 2 tasks \U{2014} 0 completed."
      && MetaText(AfterToggle(ts, a)) == "You have 2 tasks \U{2014} 1 completed."
  {
    var ts := [Task(b, "Walk dog", false), Task(a, "Buy milk", false)];
    assert ts[1..] == [Task(a, "Buy milk", false)];
    assert Summarize(ts) == Summary(2, 0);
    SentenceTwoNone();
    assert FindIndex(ts, a) == 1;
    var toggled := [Task(b, "Walk dog", false), Task(a, "Buy milk", true)];
    assert AfterToggle(ts, a) == toggled;
    assert toggled[1..] == [Task(a, "Buy milk", true)];
    assert Summarize(toggled) == Summary(2, 1);
    SentenceTwoOne();
  }

  /** Committing an edit of "Walk dog" to the empty string keeps the collection. */
  lemma ScenarioEmptyEdit(a: string, b: string)
    ensures var ts := [Task(b, "Walk dog", false), Task(a, "Buy milk", false)];
      AfterEdit(ts, 0, true, "") == ts
  {
  }
}
