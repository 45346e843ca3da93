/**
 * The loan prioritiser `loanPriority(loans)`: copies every loan with its EMI
 * attached, sorts the copies by interest rate and then EMI, both highest
 * first, with a stable sort, and recommends the first copy.
 */
module Priority {
  import opened Wrappers
  import opened Amortization

  /** A shallow copy of a loan with its EMI added, as `{ ...l, _emi }` builds it. */
  datatype RankedLoan = RankedLoan(loan: Loan, emi: real)

  datatype PriorityResult = PriorityResult(
    id: Option<string>,
    reason: string,
    suggestion: string,
    loan: RankedLoan)

  const Reason := "Highest interest rate and EMI impact"
  const Suggestion := "Prioritize extra payments here to reduce total interest."

  /** The copies `loans.map(l => ({ ...l, _emi: emi(...) }))`. */
  function WithEmi(loans: seq<Loan>): (w: seq<RankedLoan>)
    requires AllEmiDefined(loans)
    ensures |w| == |loans|
    ensures forall i :: 0 <= i < |w| ==> w[i] == RankedLoan(loans[i], LoanEmi(loans[i]))
  {
    seq(|loans|, i requires 0 <= i < |loans| => RankedLoan(loans[i], LoanEmi(loans[i])))
  }

  /** The sort comparator `b.interestRate - a.interestRate || b._emi - a._emi`. */
  function Compare(a: RankedLoan, b: RankedLoan): real
  {
    var byRate := b.loan.interestRate - a.loan.interestRate;
    if byRate != 0.0 then byRate else b.emi - a.emi
  }

  /** a comes strictly before b: higher rate, or the same rate and a higher EMI. */
  predicate RanksAbove(a: RankedLoan, b: RankedLoan)
  {
    a.loan.interestRate > b.loan.interestRate ||
    (a.loan.interestRate == b.loan.interestRate && a.emi > b.emi)
  }

  /** The comparator puts a first exactly when a ranks above b. */
  lemma CompareOrdersByRank(a: RankedLoan, b: RankedLoan)
    ensures Compare(a, b) < 0.0 <==> RanksAbove(a, b)
    ensures Compare(a, b) > 0.0 <==> RanksAbove(b, a)
  {
  }

  /**
   * Insert x, which came before every element of `sorted` in the input, in
   * front of the first element that does not rank strictly above it.
   */
  function Insert(x: RankedLoan, sorted: seq<RankedLoan>): (r: seq<RankedLoan>)
    ensures |r| == |sorted| + 1
  {
    if sorted == [] then [x]
    else if Compare(sorted[0], x) < 0.0 then [sorted[0]] + Insert(x, sorted[1..])
    else [x] + sorted
  }

  /**
   * The stable sort `withEmi.sort(compare)`: elements that compare equal keep
   * their input order.
   */
  function StableSort(s: seq<RankedLoan>): (r: seq<RankedLoan>)
    ensures |r| == |s|
  {
    if s == [] then [] else Insert(s[0], StableSort(s[1..]))
  }

  predicate SortedByRank(s: seq<RankedLoan>)
  {
    forall i, j :: 0 <= i < j < |s| ==> !RanksAbove(s[j], s[i])
  }

  lemma {:induction false} InsertPermutes(x: RankedLoan, sorted: seq<RankedLoan>)
    ensures multiset(Insert(x, sorted)) == multiset(sorted) + multiset{x}
  {
    if sorted != [] && Compare(sorted[0], x) < 0.0 {
      InsertPermutes(x, sorted[1..]);
      assert sorted == [sorted[0]] + sorted[1..];
    }
  }

  /** The sort only reorders: the result holds the same copies, as often. */
  lemma {:induction false} SortPermutes(s: seq<RankedLoan>)
    ensures multiset(StableSort(s)) == multiset(s)
  {
    if s != [] {
      SortPermutes(s[1..]);
      InsertPermutes(s[0], StableSort(s[1..]));
      assert s == [s[0]] + s[1..];
    }
  }

  lemma {:induction false} InsertKeepsOrder(x: RankedLoan, sorted: seq<RankedLoan>)
    requires SortedByRank(sorted)
    ensures SortedByRank(Insert(x, sorted))
  {
    if sorted != [] && Compare(sorted[0], x) < 0.0 {
      InsertKeepsOrder(x, sorted[1..]);
      InsertPermutes(x, sorted[1..]);
      var r := Insert(x, sorted);
      var t := Insert(x, sorted[1..]);
      assert r == [sorted[0]] + t;
      forall j | 0 < j < |r|
        ensures !RanksAbove(r[j], r[0])
      {
        assert r[j] == t[j - 1];
        assert t[j - 1] in multiset(t);
        assert r[j] == x || r[j] in sorted[1..];
      }
    }
  }

  /** The sort leaves no copy behind one that it ranks above. */
  lemma {:induction false} SortOrders(s: seq<RankedLoan>)
    ensures SortedByRank(StableSort(s))
  {
    if s != [] {
      SortOrders(s[1..]);
      InsertKeepsOrder(s[0], StableSort(s[1..]));
    }
  }

  /** k is where the first of the highest-ranked elements stands. */
  predicate IsTopAt(s: seq<RankedLoan>, k: int)
  {
    0 <= k < |s| &&
    (forall j :: 0 <= j < |s| ==> !RanksAbove(s[j], s[k])) &&
    (forall j :: 0 <= j < k ==> RanksAbove(s[k], s[j]))
  }

  /** Every non-empty list has a first highest-ranked element. */
  lemma {:induction false} TopExists(s: seq<RankedLoan>)
    requires s != []
    ensures exists k :: IsTopAt(s, k)
    decreases |s|
  {
    var n := |s|;
    if n == 1 {
      assert IsTopAt(s, 0);
    } else {
      var prefix := s[..n - 1];
      TopExists(prefix);
      var k :| IsTopAt(prefix, k);
      var x := s[n - 1];
      assert forall j :: 0 <= j < n - 1 ==> s[j] == prefix[j];
      if RanksAbove(x, s[k]) {
        assert IsTopAt(s, n - 1);
      } else {
        assert IsTopAt(s, k);
      }
    }
  }

  lemma HeadIsMember(s: seq<RankedLoan>)
    requires s != []
    ensures StableSort(s)[0] in s
  {
    SortPermutes(s);
    assert StableSort(s)[0] in multiset(StableSort(s));
  }

  /**
   * The first element of the sorted copy is the highest-ranked element that
   * comes first in the input: the stable sort keeps ties in input order.
   */
  lemma {:induction false} SortHeadIsFirstTop(s: seq<RankedLoan>, k: int)
    requires IsTopAt(s, k)
    ensures StableSort(s)[0] == s[k]
  {
    var t := StableSort(s[1..]);
    if k == 0 {
      if t != [] {
        HeadIsMember(s[1..]);
        CompareOrdersByRank(t[0], s[0]);
      }
    } else {
      assert IsTopAt(s[1..], k - 1) by {
        forall j | 0 <= j < |s| - 1
          ensures !RanksAbove(s[1..][j], s[1..][k - 1])
        {
          assert s[1..][j] == s[j + 1];
        }
      }
      SortHeadIsFirstTop(s[1..], k - 1);
      CompareOrdersByRank(t[0], s[0]);
    }
  }

  /** Nothing in the input ranks above the head of the sorted copy. */
  lemma HeadIsMaximal(s: seq<RankedLoan>)
    requires s != []
    ensures forall x :: x in s ==> !RanksAbove(x, StableSort(s)[0])
  {
    SortOrders(s);
    SortPermutes(s);
    var r := StableSort(s);
    forall x | x in s
      ensures !RanksAbove(x, r[0])
    {
      assert x in multiset(r);
      var j :| 0 <= j < |r| && r[j] == x;
    }
  }

  /** `top._id || top.id || null`: the first of the two ids that is not empty. */
  predicate Truthy(o: Option<string>)
  {
    o.Some? && o.value != ""
  }

  function IdOf(l: Loan): (r: Option<string>)
    ensures r.None? <==> !Truthy(l.mongoId) && !Truthy(l.id)
    ensures r.Some? ==> Truthy(r) && (r == l.mongoId || r == l.id)
    ensures Truthy(l.mongoId) ==> r == l.mongoId
  {
    if Truthy(l.mongoId) then l.mongoId
    else if Truthy(l.id) then l.id
    else None
  }

  /**
   * `loanPriority(loans)`: null exactly for an empty list; otherwise the copy
   * of a loan of the highest rate, among those of the highest EMI, and among
   * those the first in input order, with its id and the fixed advice.
   */
  function LoanPriority(loans: seq<Loan>): (p: Option<PriorityResult>)
    requires AllEmiDefined(loans)
    ensures p.None? <==> loans == []
    ensures p.Some? ==> p.value.loan in WithEmi(loans)
    ensures p.Some? ==> p.value.loan.loan in loans && p.value.loan.emi == LoanEmi(p.value.loan.loan)
    ensures p.Some? ==> forall x :: x in WithEmi(loans) ==> !RanksAbove(x, p.value.loan)
    ensures loans != [] ==> exists k :: IsTopAt(WithEmi(loans), k)
    ensures p.Some? ==> forall k :: IsTopAt(WithEmi(loans), k) ==> p.value.loan == WithEmi(loans)[k]
    ensures p.Some? ==> p.value.id == IdOf(p.value.loan.loan)
    ensures p.Some? ==> p.value.reason == Reason && p.value.suggestion == Suggestion
  {
    if loans == [] then None
    else
      var w := WithEmi(loans);
      var top := StableSort(w)[0];
      HeadIsMember(w);
      HeadIsMaximal(w);
      TopExists(w);
      assert forall k :: IsTopAt(w, k) ==> top == w[k] by {
        forall k | IsTopAt(w, k)
          ensures top == w[k]
        {
          SortHeadIsFirstTop(w, k);
        }
      }
      var i :| 0 <= i < |w| && w[i] == top;
      Some(PriorityResult(IdOf(top.loan), Reason, Suggestion, top))
  }

  /** A single loan is its own priority. */
  lemma SingleLoanIsPriority(l: Loan)
    requires LoanEmiDefined(l)
    ensures LoanPriority([l]) ==
      Some(PriorityResult(IdOf(l), Reason, Suggestion, RankedLoan(l, LoanEmi(l))))
  {
    assert IsTopAt(WithEmi([l]), 0);
  }
}
