/**
 * The question store: the `Questions` table as a sequence of rows, and the
 * filtered queries the exam engine runs against it.
 */
module Bank {
  import opened Wrappers

  /** One row of the `Questions` table, fields in column order. */
  datatype Question = Question(
    id: int,
    subject: string,
    section: string,
    passage: string,
    text: string,
    optionA: string,
    optionB: string,
    optionC: string,
    optionD: string,
    correct: string)

  /** The set of ids occurring in `qs`. */
  function Ids(qs: seq<Question>): set<int> {
    set q | q in qs :: q.id
  }

  /** No id occurs twice; for the whole store this is the primary key. */
  predicate DistinctIds(qs: seq<Question>) {
    forall i, j :: 0 <= i < j < |qs| ==> qs[i].id != qs[j].id
  }

  /** Whether row `q` satisfies the WHERE clause of a store query. */
  predicate Matches(q: Question, subject: string, section: Option<string>, excluded: set<int>) {
    && q.subject == subject
    && (section.Some? ==> q.section == section.value)
    && q.id !in excluded
  }

  /**
   * The rows a query `WHERE subject=? [AND section=?] [AND id NOT IN (...)]`
   * can return, in store order. An empty `excluded` is the query without
   * the NOT IN clause.
   */
  function Eligible(store: seq<Question>, subject: string, section: Option<string>, excluded: set<int>): (r: seq<Question>)
    ensures |r| <= |store|
    ensures forall q :: q in r <==> q in store && Matches(q, subject, section, excluded)
  {
    if store == [] then []
    else
      (if Matches(store[0], subject, section, excluded) then [store[0]] else [])
      + Eligible(store[1..], subject, section, excluded)
  }

  /** All questions of `subject`. */
  function SubjectQuestions(store: seq<Question>, subject: string): seq<Question> {
    Eligible(store, subject, None, {})
  }

  /** All questions of one section of `subject`. */
  function SectionQuestions(store: seq<Question>, subject: string, section: string): seq<Question> {
    Eligible(store, subject, Some(section), {})
  }

  lemma IdsConcat(a: seq<Question>, b: seq<Question>)
    ensures Ids(a + b) == Ids(a) + Ids(b)
  {
    assert forall q :: q in a + b <==> q in a || q in b;
  }

  lemma IdsSnoc(init: seq<Question>, last: Question)
    ensures Ids(init + [last]) == Ids(init) + {last.id}
  {
    IdsConcat(init, [last]);
    assert Ids([last]) == {last.id};
  }

  /** With distinct ids, the last id does not occur earlier. */
  lemma LastIdNew(qs: seq<Question>)
    requires DistinctIds(qs) && qs != []
    ensures qs[|qs| - 1].id !in Ids(qs[..|qs| - 1])
  {
    var init, last := qs[..|qs| - 1], qs[|qs| - 1];
    forall q | q in init ensures q.id != last.id {
      var k :| 0 <= k < |init| && init[k] == q;
      assert qs[k] == q;
    }
  }

  /** A sequence with distinct ids has as many ids as elements. */
  lemma {:induction false} DistinctIdsCard(qs: seq<Question>)
    requires DistinctIds(qs)
    ensures |Ids(qs)| == |qs|
  {
    if qs != [] {
      var init, last := qs[..|qs| - 1], qs[|qs| - 1];
      assert qs == init + [last];
      assert DistinctIds(init) by {
        forall i, j | 0 <= i < j < |init| ensures init[i].id != init[j].id {
          assert init[i] == qs[i] && init[j] == qs[j];
        }
      }
      DistinctIdsCard(init);
      IdsSnoc(init, last);
      LastIdNew(qs);
      assert |Ids(init) + {last.id}| == |Ids(init)| + 1;
    }
  }

  lemma DistinctIdsConcat(a: seq<Question>, b: seq<Question>)
    requires DistinctIds(a) && DistinctIds(b) && Ids(a) !! Ids(b)
    ensures DistinctIds(a + b)
  {
    forall i, j | 0 <= i < j < |a + b|
      ensures (a + b)[i].id != (a + b)[j].id
    {
      if i < |a| && j >= |a| {
        assert (a + b)[i] == a[i] && a[i] in a;
        assert (a + b)[j] == b[j - |a|] && b[j - |a|] in b;
        assert a[i].id in Ids(a) && b[j - |a|].id in Ids(b);
      }
    }
  }

  /** Within a store with a primary key, a row is determined by its id. */
  lemma SameIdSameRow(store: seq<Question>, x: Question, y: Question)
    requires DistinctIds(store) && x in store && y in store && x.id == y.id
    ensures x == y
  {
    var i :| 0 <= i < |store| && store[i] == x;
    var j :| 0 <= j < |store| && store[j] == y;
  }

  /** Filtering a duplicate-free sequence keeps it duplicate-free. */
  lemma {:induction false} EligibleDistinct(store: seq<Question>, subject: string, section: Option<string>, excluded: set<int>)
    requires DistinctIds(store)
    ensures DistinctIds(Eligible(store, subject, section, excluded))
  {
    if store != [] {
      var rest := Eligible(store[1..], subject, section, excluded);
      EligibleDistinct(store[1..], subject, section, excluded);
      if Matches(store[0], subject, section, excluded) {
        forall q | q in rest ensures q.id != store[0].id {
          var i :| 0 <= i < |store[1..]| && store[1..][i] == q;
          assert store[i + 1] == q;
        }
        assert store[0].id !in Ids(rest);
        assert Ids([store[0]]) == {store[0].id};
        DistinctIdsConcat([store[0]], rest);
      }
    }
  }

  /** When no matching row has an excluded id, the NOT IN clause drops nothing. */
  lemma {:induction false} EligibleExcludesNothing(store: seq<Question>, subject: string, section: Option<string>, excluded: set<int>)
    requires forall q :: q in store && Matches(q, subject, section, {}) ==> q.id !in excluded
    ensures Eligible(store, subject, section, excluded) == Eligible(store, subject, section, {})
  {
    if store != [] {
      EligibleExcludesNothing(store[1..], subject, section, excluded);
    }
  }

  /**
   * Excluding the ids of some already drawn questions of `subject` leaves
   * exactly the others: the count drops by the number drawn.
   */
  lemma EligibleAfterExclusion(store: seq<Question>, subject: string, drawn: seq<Question>)
    requires DistinctIds(store) && DistinctIds(drawn)
    requires forall q :: q in drawn ==> q in store && q.subject == subject
    ensures |Eligible(store, subject, None, Ids(drawn))| == |SubjectQuestions(store, subject)| - |drawn|
  {
    var all := SubjectQuestions(store, subject);
    var rest := Eligible(store, subject, None, Ids(drawn));
    EligibleDistinct(store, subject, None, {});
    EligibleDistinct(store, subject, None, Ids(drawn));
    DistinctIdsCard(all);
    DistinctIdsCard(rest);
    DistinctIdsCard(drawn);
    assert Ids(rest) == Ids(all) - Ids(drawn) by {
      forall x | x in Ids(all) - Ids(drawn) ensures x in Ids(rest) {
        var q :| q in all && q.id == x;
      }
    }
    assert Ids(drawn) <= Ids(all) by {
      forall x | x in Ids(drawn) ensures x in Ids(all) {
        var q :| q in drawn && q.id == x;
      }
    }
  }

  /** A duplicate-free selection from the store's rows of `subject` is no larger than them. */
  lemma SelectionBound(store: seq<Question>, subject: string, drawn: seq<Question>)
    requires DistinctIds(store) && DistinctIds(drawn)
    requires forall q :: q in drawn ==> q in store && q.subject == subject
    ensures |drawn| <= |SubjectQuestions(store, subject)|
  {
    EligibleAfterExclusion(store, subject, drawn);
  }
}
