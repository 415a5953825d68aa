/**
 * The balanced sampler `get_balanced_questions`: split the requested total
 * over the subject's sections, draw each section's share at random without
 * repeating an id, then backfill any shortfall from the whole subject.
 */
module Sampler {
  import opened Wrappers
  import opened Bank

  /** Share of section `i` out of `n`: `total // n`, one more for the first `total % n` sections. */
  function Quota(total: nat, n: nat, i: nat): (r: nat)
    requires n > 0
    ensures total / n <= r <= total / n + 1
    ensures i >= n ==> r == total / n
  {
    total / n + (if i < total % n then 1 else 0)
  }

  /** Sum of the shares of the first `k` sections. */
  function QuotaSum(total: nat, n: nat, k: nat): nat
    requires n > 0
  {
    if k == 0 then 0 else QuotaSum(total, n, k - 1) + Quota(total, n, k - 1)
  }

  lemma {:induction false} QuotaSumPrefix(total: nat, n: nat, k: nat)
    requires 0 < n && k <= n
    ensures QuotaSum(total, n, k) == k * (total / n) + Min(k, total % n)
  {
    if k > 0 {
      QuotaSumPrefix(total, n, k - 1);
      var q := total / n;
      assert k * q == (k - 1) * q + q;
    }
  }

  /** The shares of all sections add up to exactly the requested total. */
  lemma QuotasSumToTotal(total: nat, n: nat)
    requires n > 0
    ensures QuotaSum(total, n, n) == total
  {
    QuotaSumPrefix(total, n, n);
  }

  /**
   * Shares are balanced: an earlier section never gets less than a later
   * one and never more than one extra; the extra goes to the first
   * `total % n` sections.
   */
  lemma QuotasBalanced(total: nat, n: nat, i: nat, j: nat)
    requires n > 0 && i <= j < n
    ensures Quota(total, n, j) <= Quota(total, n, i) <= Quota(total, n, j) + 1
    ensures Quota(total, n, i) == total / n + 1 <==> i < total % n
  {
  }

  /** With a positive total, the first section is always allotted at least one question. */
  lemma FirstQuotaPositive(total: nat, n: nat)
    requires n > 0 && total > 0
    ensures Quota(total, n, 0) >= 1
  {
    if total / n == 0 {
      assert total == n * (total / n) + total % n;
    }
  }

  /**
   * `sections` is a possible answer to `SELECT DISTINCT section ... WHERE
   * subject=?`: each section of the subject once, in some order.
   */
  predicate IsSectionList(store: seq<Question>, subject: string, sections: seq<string>) {
    && (forall i, j :: 0 <= i < j < |sections| ==> sections[i] != sections[j])
    && (forall i :: 0 <= i < |sections| ==> SectionQuestions(store, subject, sections[i]) != [])
    && (forall q :: q in store && q.subject == subject ==> q.section in sections)
  }

  /** One enumeration of the subject's distinct sections. */
  function SectionsOf(store: seq<Question>, subject: string): (r: seq<string>)
    ensures IsSectionList(store, subject, r)
  {
    if store == [] then []
    else
      var rest := SectionsOf(store[1..], subject);
      assert forall s :: SectionQuestions(store[1..], subject, s) != [] ==> SectionQuestions(store, subject, s) != [];
      if store[0].subject == subject && store[0].section !in rest then [store[0].section] + rest
      else rest
  }

  /** The subject has no sections exactly when it has no questions. */
  lemma NoSectionsNoQuestions(store: seq<Question>, subject: string, sections: seq<string>)
    requires IsSectionList(store, subject, sections)
    ensures sections == [] <==> SubjectQuestions(store, subject) == []
  {
    if sections != [] {
      var q := SectionQuestions(store, subject, sections[0])[0];
      assert q in SectionQuestions(store, subject, sections[0]);
      assert q in SubjectQuestions(store, subject);
    }
    if SubjectQuestions(store, subject) != [] {
      var q := SubjectQuestions(store, subject)[0];
      assert q in SubjectQuestions(store, subject);
      assert q.section in sections;
    }
  }

  /**
   * `rows` is a possible answer to `... ORDER BY RANDOM() LIMIT limit` over
   * `eligible`: as many distinct eligible rows as the limit allows.
   */
  predicate IsDraw(eligible: seq<Question>, limit: nat, rows: seq<Question>) {
    && |rows| == Min(limit, |eligible|)
    && DistinctIds(rows)
    && (forall i :: 0 <= i < |rows| ==> rows[i] in eligible)
  }

  /** A random draw without replacement; which rows come back is not determined. */
  method Draw(eligible: seq<Question>, limit: nat) returns (rows: seq<Question>)
    requires DistinctIds(eligible)
    ensures IsDraw(eligible, limit, rows)
  {
    var m := Min(limit, |eligible|);
    assert IsDraw(eligible, limit, eligible[..m]);
    rows :| IsDraw(eligible, limit, rows);
  }

  /** The per-section draws, concatenated in section order. */
  function Flatten(parts: seq<seq<Question>>): seq<Question> {
    if parts == [] then [] else Flatten(parts[..|parts| - 1]) + parts[|parts| - 1]
  }

  lemma FlattenSnoc(parts: seq<seq<Question>>, rows: seq<Question>)
    ensures Flatten(parts + [rows]) == Flatten(parts) + rows
  {
    assert (parts + [rows])[..|parts|] == parts;
  }

  /** No question of section `sec` shares an id with a question drawn from other sections. */
  lemma OtherSectionsDisjoint(store: seq<Question>, subject: string, sec: string, drawn: seq<Question>)
    requires DistinctIds(store)
    requires forall q :: q in drawn ==> q in store && q.section != sec
    ensures Eligible(store, subject, Some(sec), Ids(drawn)) == SectionQuestions(store, subject, sec)
  {
    forall q | q in store && Matches(q, subject, Some(sec), {})
      ensures q.id !in Ids(drawn)
    {
      if q.id in Ids(drawn) {
        var x :| x in drawn && x.id == q.id;
        SameIdSameRow(store, x, q);
        assert false;
      }
    }
    EligibleExcludesNothing(store, subject, Some(sec), Ids(drawn));
  }

  /** Every row of `qs` is a store row of `subject` from one of the first `k` sections. */
  ghost predicate FromFirstSections(store: seq<Question>, subject: string, secs: seq<string>, k: nat, qs: seq<Question>)
    requires k <= |secs|
  {
    forall q :: q in qs ==> q in store && q.subject == subject && q.section in secs[..k]
  }

  /** Draw `j` took its section's full share, or the whole section when it is smaller. */
  ghost predicate PartsSized(store: seq<Question>, subject: string, secs: seq<string>, total: nat, parts: seq<seq<Question>>)
    requires 0 < |secs| && |parts| <= |secs|
  {
    forall j :: 0 <= j < |parts| ==>
      |parts[j]| == Min(Quota(total, |secs|, j), |SectionQuestions(store, subject, secs[j])|)
  }

  /** Draw `j` holds only questions of section `j`. */
  ghost predicate PartsInSections(subject: string, secs: seq<string>, parts: seq<seq<Question>>)
    requires |parts| <= |secs|
  {
    forall j, q :: 0 <= j < |parts| && q in parts[j] ==> q.subject == subject && q.section == secs[j]
  }

  /**
   * What holds after the balanced round has drawn `parts`, one draw per
   * section, for the first `|parts|` sections of `secs`.
   */
  ghost predicate RoundState(store: seq<Question>, subject: string, secs: seq<string>, total: nat, parts: seq<seq<Question>>)
    requires |secs| > 0
  {
    && |parts| <= |secs|
    && DistinctIds(Flatten(parts))
    && FromFirstSections(store, subject, secs, |parts|, Flatten(parts))
    && PartsSized(store, subject, secs, total, parts)
    && PartsInSections(subject, secs, parts)
    && |Flatten(parts)| <= QuotaSum(total, |secs|, |parts|)
    && (|parts| > 0 && total > 0 ==> Flatten(parts) != [])
  }

  /** Rows drawn with the NOT IN clause never repeat an id already selected. */
  lemma DrawDisjoint(eligible: seq<Question>, limit: nat, rows: seq<Question>, qs: seq<Question>)
    requires forall q :: q in eligible ==> q.id !in Ids(qs)
    requires IsDraw(eligible, limit, rows)
    ensures Ids(qs) !! Ids(rows)
  {
    forall x | x in Ids(rows) ensures x !in Ids(qs) {
      var r :| r in rows && r.id == x;
      var k :| 0 <= k < |rows| && rows[k] == r;
    }
  }

  /** The sections before position `i` of a duplicate-free list do not include section `i`. */
  lemma EarlierSectionsDiffer(store: seq<Question>, subject: string, secs: seq<string>, i: nat, qs: seq<Question>)
    requires IsSectionList(store, subject, secs) && i < |secs|
    requires forall q :: q in qs ==> q in store && q.section in secs[..i]
    ensures forall q :: q in qs ==> q in store && q.section != secs[i]
  {
    forall q | q in qs ensures q.section != secs[i] {
      var k :| 0 <= k < i && secs[k] == q.section;
      assert secs[k] != secs[i];
    }
  }

  /** One iteration of the balanced round keeps `RoundState`. */
  lemma RoundStep(store: seq<Question>, subject: string, secs: seq<string>, total: nat,
                  parts: seq<seq<Question>>, rows: seq<Question>)
    requires DistinctIds(store) && IsSectionList(store, subject, secs) && |secs| > 0
    requires RoundState(store, subject, secs, total, parts) && |parts| < |secs|
    requires IsDraw(Eligible(store, subject, Some(secs[|parts|]), Ids(Flatten(parts))),
                    Quota(total, |secs|, |parts|), rows)
    ensures RoundState(store, subject, secs, total, parts + [rows])
  {
    var i, qs, sec := |parts|, Flatten(parts), secs[|parts|];
    var parts' := parts + [rows];
    assert Eligible(store, subject, Some(sec), Ids(qs)) == SectionQuestions(store, subject, sec) by {
      EarlierSectionsDiffer(store, subject, secs, i, qs);
      OtherSectionsDisjoint(store, subject, sec, qs);
    }
    FlattenSnoc(parts, rows);
    assert DistinctIds(qs + rows) by {
      DrawDisjoint(SectionQuestions(store, subject, sec), Quota(total, |secs|, i), rows, qs);
      DistinctIdsConcat(qs, rows);
    }
    RoundMembership(store, subject, secs, i, qs, rows);
    PartsSizedStep(store, subject, secs, total, parts, rows);
    PartsInSectionsStep(store, subject, secs, parts, rows);
    if i == 0 && total > 0 {
      FirstQuotaPositive(total, |secs|);
    }
  }

  lemma PartsSizedStep(store: seq<Question>, subject: string, secs: seq<string>, total: nat,
                       parts: seq<seq<Question>>, rows: seq<Question>)
    requires 0 < |secs| && |parts| < |secs|
    requires PartsSized(store, subject, secs, total, parts)
    requires |rows| == Min(Quota(total, |secs|, |parts|), |SectionQuestions(store, subject, secs[|parts|])|)
    ensures PartsSized(store, subject, secs, total, parts + [rows])
  {
    assert forall j :: 0 <= j < |parts| ==> (parts + [rows])[j] == parts[j];
  }

  lemma PartsInSectionsStep(store: seq<Question>, subject: string, secs: seq<string>,
                            parts: seq<seq<Question>>, rows: seq<Question>)
    requires |parts| < |secs|
    requires PartsInSections(subject, secs, parts)
    requires forall k :: 0 <= k < |rows| ==> rows[k] in SectionQuestions(store, subject, secs[|parts|])
    ensures PartsInSections(subject, secs, parts + [rows])
  {
    var parts' := parts + [rows];
    forall j, q: Question | 0 <= j < |parts'| && q in parts'[j]
      ensures q.subject == subject && q.section == secs[j]
    {
      if j == |parts| {
        var k :| 0 <= k < |rows| && rows[k] == q;
      } else {
        assert parts'[j] == parts[j];
      }
    }
  }

  /** After drawing section `i` every selected row lies in one of the first `i + 1` sections. */
  lemma RoundMembership(store: seq<Question>, subject: string, secs: seq<string>, i: nat,
                        qs: seq<Question>, rows: seq<Question>)
    requires i < |secs|
    requires FromFirstSections(store, subject, secs, i, qs)
    requires forall k :: 0 <= k < |rows| ==> rows[k] in SectionQuestions(store, subject, secs[i])
    ensures FromFirstSections(store, subject, secs, i + 1, qs + rows)
  {
    forall q | q in qs + rows
      ensures q in store && q.subject == subject && q.section in secs[..i + 1]
    {
      if q in rows {
        var k :| 0 <= k < |rows| && rows[k] == q;
        assert secs[..i + 1][i] == secs[i];
      } else {
        var k :| 0 <= k < i && secs[..i][k] == q.section;
        assert secs[..i + 1][k] == q.section;
      }
    }
  }

  /**
   * The balanced round of `get_balanced_questions`: for each section in
   * order, draw its share from the rows not yet selected.
   */
  method DrawSections(store: seq<Question>, subject: string, secs: seq<string>, totalLimit: nat)
    returns (qs: seq<Question>, selected: set<int>, ghost parts: seq<seq<Question>>)
    requires DistinctIds(store) && IsSectionList(store, subject, secs) && |secs| > 0
    ensures |parts| == |secs| && qs == Flatten(parts) && selected == Ids(qs)
    ensures DistinctIds(qs)
    ensures forall q :: q in qs ==> q in store && q.subject == subject
    ensures PartsSized(store, subject, secs, totalLimit, parts)
    ensures PartsInSections(subject, secs, parts)
    ensures |qs| <= totalLimit
    ensures totalLimit > 0 ==> qs != []
  {
    var n := |secs|;
    qs, selected, parts := [], {}, [];
    for i := 0 to n
      invariant |parts| == i
      invariant qs == Flatten(parts)
      invariant selected == Ids(qs)
      invariant RoundState(store, subject, secs, totalLimit, parts)
    {
      var limit := Quota(totalLimit, n, i);
      // With nothing selected yet the source omits the NOT IN clause; excluding {} is the same query.
      var eligible := Eligible(store, subject, Some(secs[i]), selected);
      EligibleDistinct(store, subject, Some(secs[i]), selected);
      var rows := Draw(eligible, limit);
      RoundStep(store, subject, secs, totalLimit, parts, rows);
      IdsConcat(qs, rows);
      selected := selected + Ids(rows);
      qs := qs + rows;
      parts := parts + [rows];
    }
    QuotasSumToTotal(totalLimit, n);
  }

  /**
   * `get_balanced_questions(subject, totalLimit)` over `store`. The ghost
   * results expose the run: the section enumeration used, the rows drawn
   * from each section, and the backfill rows.
   */
  method GetBalancedQuestions(store: seq<Question>, subject: string, totalLimit: nat)
    returns (qs: seq<Question>, ghost sections: seq<string>, ghost parts: seq<seq<Question>>, ghost backfill: seq<Question>)
    requires DistinctIds(store)
    ensures IsSectionList(store, subject, sections)
    ensures sections == [] ==> qs == []
    ensures DistinctIds(qs)
    ensures forall q :: q in qs ==> q in store && q.subject == subject
    ensures |qs| == Min(totalLimit, |SubjectQuestions(store, subject)|)
    ensures qs == Flatten(parts) + backfill
    ensures |parts| == |sections|
    ensures sections != [] ==> PartsSized(store, subject, sections, totalLimit, parts)
    ensures PartsInSections(subject, sections, parts)
    ensures |backfill| <= totalLimit - |Flatten(parts)|
  {
    var secs :| IsSectionList(store, subject, secs) by {
      assert IsSectionList(store, subject, SectionsOf(store, subject));
    }
    sections, parts, backfill := secs, [], [];
    if |secs| == 0 {
      NoSectionsNoQuestions(store, subject, secs);
      return [], sections, parts, backfill;
    }
    var selected;
    qs, selected, parts := DrawSections(store, subject, secs, totalLimit);
    SelectionBound(store, subject, qs);
    assert qs != [] ==> qs[0].id in Ids(qs);
    ghost var total := |SubjectQuestions(store, subject)|;
    var deficit := totalLimit - |qs|;
    if deficit > 0 && selected != {} {
      var eligible := Eligible(store, subject, None, selected);
      EligibleDistinct(store, subject, None, selected);
      EligibleAfterExclusion(store, subject, qs);
      assert |eligible| == total - |qs|;
      var rows := Draw(eligible, deficit);
      DrawDisjoint(eligible, deficit, rows, qs);
      DistinctIdsConcat(qs, rows);
      assert |qs + rows| == Min(totalLimit, total);
      backfill := rows;
      qs := qs + rows;
    } else {
      assert |qs| == totalLimit;
    }
  }
}
