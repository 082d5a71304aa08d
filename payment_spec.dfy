/**
 * The payment-list pipeline of lib/cumulative-payment-tree.js: dropping
 * falsy entries, grouping by payee with summed amounts, rendering each
 * group as the string `payee,amount`, and the two lookups (exact payee
 * match for the amount, substring match for the node).
 */
module PaymentSpec {
  import opened Wrappers
  import opened ByteOrder
  import opened Encoding

  /** One `{ payee, amount }` object; amounts are non-negative integers. */
  datatype Payment = Payment(payee: string, amount: nat)

  // ---------------------------------------------------------------------------
  // Filtering and grouping
  // ---------------------------------------------------------------------------

  /** `payment.payee && payment.amount`: an empty payee or a zero amount is falsy. */
  predicate Kept(x: Payment) {
    x.payee != "" && x.amount != 0
  }

  /** `paymentList.filter(...)`, keeping the order. */
  function Filtered(ps: seq<Payment>): seq<Payment> {
    if ps == [] then []
    else
      var rest := Filtered(ps[..|ps| - 1]);
      if Kept(ps[|ps| - 1]) then rest + [ps[|ps| - 1]] else rest
  }

  /** The distinct payees, in the order of their first occurrence (the keys of `_.groupBy`). */
  function Payees(ps: seq<Payment>): seq<string> {
    if ps == [] then []
    else
      var rest := Payees(ps[..|ps| - 1]);
      var p := ps[|ps| - 1].payee;
      if p in rest then rest else rest + [p]
  }

  ghost function PayeeSet(ps: seq<Payment>): set<string> {
    set x | x in ps :: x.payee
  }

  /** The total paid to `p` across all entries of `ps`. */
  function SumFor(ps: seq<Payment>, p: string): nat {
    if ps == [] then 0
    else SumFor(ps[..|ps| - 1], p) + (if ps[|ps| - 1].payee == p then ps[|ps| - 1].amount else 0)
  }

  function Total(ps: seq<Payment>): nat {
    if ps == [] then 0 else Total(ps[..|ps| - 1]) + ps[|ps| - 1].amount
  }

  /** One entry per payee of `qs`, holding what `fs` pays that payee (`_.reduce` over the group). */
  function Group(qs: seq<string>, fs: seq<Payment>): (r: seq<Payment>)
    ensures |r| == |qs|
  {
    seq(|qs|, i requires 0 <= i < |qs| => Payment(qs[i], SumFor(fs, qs[i])))
  }

  /** `reducedPaymentList`. */
  function Reduced(ps: seq<Payment>): seq<Payment> {
    Group(Payees(Filtered(ps)), Filtered(ps))
  }

  function PayeesOf(r: seq<Payment>): (qs: seq<string>)
    ensures |qs| == |r|
  {
    seq(|r|, i requires 0 <= i < |r| => r[i].payee)
  }

  // ---------------------------------------------------------------------------
  // Payment nodes
  // ---------------------------------------------------------------------------

  /** `payment.payee + ',' + payment.amount`. */
  function EncodeNode(x: Payment): (s: string)
    ensures |s| >= |x.payee| + 2 && s[..|x.payee|] == x.payee && s[|x.payee|] == ','
  {
    x.payee + "," + Decimal(x.amount)
  }

  /** `paymentNodes`. */
  function Nodes(r: seq<Payment>): (ns: seq<string>)
    ensures |ns| == |r|
  {
    seq(|r|, i requires 0 <= i < |r| => EncodeNode(r[i]))
  }

  /** The index of the last ',' of `s`, or -1. */
  function LastComma(s: string): (k: int)
    ensures -1 <= k < |s|
    ensures k >= 0 ==> s[k] == ','
    ensures forall j :: k < j < |s| ==> s[j] != ','
  {
    if s == [] then -1
    else if s[|s| - 1] == ',' then |s| - 1
    else LastComma(s[..|s| - 1])
  }

  /** Reads a payment node back: the payee is everything before the last ',', the amount the digits after it. */
  function DecodeNode(s: string): Option<Payment> {
    var k := LastComma(s);
    if k < 0 then None
    else
      var digits := s[k + 1..];
      if digits != [] && forall i :: 0 <= i < |digits| ==> IsDigit(digits[i])
      then Some(Payment(s[..k], ParseDecimal(digits)))
      else None
  }

  // ---------------------------------------------------------------------------
  // Lookups
  // ---------------------------------------------------------------------------

  /** `_.find(paymentList, { payee })` then `.amount`, and 0 when nothing matches. */
  function AmountFor(r: seq<Payment>, p: string): nat {
    if r == [] then 0
    else if r[0].payee == p then r[0].amount
    else AmountFor(r[1..], p)
  }

  predicate OccursAt(s: string, p: string, i: nat) {
    i + |p| <= |s| && s[i..i + |p|] == p
  }

  /** `s.indexOf(p, from)`: the first position at or after `from` where `p` occurs, or -1. */
  function IndexOfFrom(s: string, p: string, from: nat): (r: int)
    requires from <= |s|
    ensures r == -1 || (from <= r && OccursAt(s, p, r))
    ensures forall j :: from <= j && (r == -1 || j < r) ==> !OccursAt(s, p, j)
    decreases |s| - from
  {
    if from + |p| > |s| then -1
    else if s[from..from + |p|] == p then from
    else
      assert |p| > 0;
      IndexOfFrom(s, p, from + 1)
  }

  /** `s.indexOf(p) > -1`; the empty string occurs in every string. */
  predicate Contains(s: string, p: string) {
    IndexOfFrom(s, p, 0) > -1
  }

  /** `paymentNodes.find(node => node.indexOf(payee) > -1)`. */
  function FindNode(nodes: seq<string>, p: string): Option<string> {
    if nodes == [] then None
    else if Contains(nodes[0], p) then Some(nodes[0])
    else FindNode(nodes[1..], p)
  }

  // ---------------------------------------------------------------------------
  // Filtering and grouping: properties
  // ---------------------------------------------------------------------------

  /** The filter keeps exactly the truthy entries. */
  lemma {:induction false} FilteredSpec(ps: seq<Payment>)
    ensures forall x :: x in Filtered(ps) <==> x in ps && Kept(x)
    ensures |Filtered(ps)| <= |ps|
  {
    if ps != [] {
      var init := ps[..|ps| - 1];
      FilteredSpec(init);
      assert ps == init + [ps[|ps| - 1]];
    }
  }

  /** Each payee occurs once, and exactly the payees of `ps` occur. */
  lemma {:induction false} PayeesSpec(ps: seq<Payment>)
    ensures Distinct(Payees(ps))
    ensures Elems(Payees(ps)) == PayeeSet(ps)
  {
    if ps != [] {
      var init := ps[..|ps| - 1];
      PayeesSpec(init);
      assert ps == init + [ps[|ps| - 1]];
      assert PayeeSet(ps) == PayeeSet(init) + {ps[|ps| - 1].payee};
    }
  }

  /** Dropping falsy entries changes no non-empty payee's total. */
  lemma {:induction false} FilteredSum(ps: seq<Payment>, p: string)
    requires p != ""
    ensures SumFor(Filtered(ps), p) == SumFor(ps, p)
  {
    if ps != [] {
      var init := ps[..|ps| - 1];
      FilteredSum(init, p);
      var rest := Filtered(init);
      if Kept(ps[|ps| - 1]) {
        assert (rest + [ps[|ps| - 1]])[..|rest|] == rest;
      }
    }
  }

  /** What the filter drops adds up to what is paid to the empty payee. */
  lemma {:induction false} FilteredTotal(ps: seq<Payment>)
    ensures Total(Filtered(ps)) + SumFor(ps, "") == Total(ps)
  {
    if ps != [] {
      var init := ps[..|ps| - 1];
      FilteredTotal(init);
      var rest := Filtered(init);
      if Kept(ps[|ps| - 1]) {
        assert (rest + [ps[|ps| - 1]])[..|rest|] == rest;
      }
    }
  }

  /** A payee that does not occur is paid nothing. */
  lemma {:induction false} SumForAbsent(ps: seq<Payment>, p: string)
    requires p !in PayeeSet(ps)
    ensures SumFor(ps, p) == 0
  {
    if ps != [] {
      var init := ps[..|ps| - 1];
      assert PayeeSet(init) <= PayeeSet(ps);
      SumForAbsent(init, p);
    }
  }

  /** When every amount is positive, every payee that occurs is paid something. */
  lemma {:induction false} SumForPositive(ps: seq<Payment>, p: string)
    requires forall x :: x in ps ==> x.amount > 0
    requires p in PayeeSet(ps)
    ensures SumFor(ps, p) > 0
  {
    var init := ps[..|ps| - 1];
    if ps[|ps| - 1].payee != p {
      assert ps == init + [ps[|ps| - 1]];
      assert p in PayeeSet(init);
      SumForPositive(init, p);
    }
  }

  /** One more entry adds its amount to the group of its payee, if that is among `qs`. */
  lemma {:induction false} GroupExtend(qs: seq<string>, fs: seq<Payment>, x: Payment)
    requires Distinct(qs)
    ensures Total(Group(qs, fs + [x])) == Total(Group(qs, fs)) + (if x.payee in qs then x.amount else 0)
  {
    if qs != [] {
      var init := qs[..|qs| - 1];
      assert Group(qs, fs + [x])[..|init|] == Group(init, fs + [x]);
      assert Group(qs, fs)[..|init|] == Group(init, fs);
      assert (fs + [x])[..|fs|] == fs;
      assert Distinct(init);
      GroupExtend(init, fs, x);
      assert qs == init + [qs[|qs| - 1]];
    }
  }

  lemma {:induction false} GroupNothing(qs: seq<string>)
    ensures Total(Group(qs, [])) == 0
  {
    if qs != [] {
      assert Group(qs, [])[..|qs| - 1] == Group(qs[..|qs| - 1], []);
      GroupNothing(qs[..|qs| - 1]);
    }
  }

  /** Grouping by a list of distinct payees covering all entries loses and duplicates nothing. */
  lemma {:induction false} GroupTotal(qs: seq<string>, fs: seq<Payment>)
    requires Distinct(qs)
    requires forall x :: x in fs ==> x.payee in qs
    ensures Total(Group(qs, fs)) == Total(fs)
  {
    if fs == [] {
      GroupNothing(qs);
    } else {
      var init := fs[..|fs| - 1];
      assert fs == init + [fs[|fs| - 1]];
      GroupTotal(qs, init);
      GroupExtend(qs, init, fs[|fs| - 1]);
    }
  }

  /**
   * The reduced list has one entry per distinct non-empty payee with a
   * non-zero entry, in first-occurrence order; each entry holds the payee's
   * whole total, which is positive.
   */
  lemma ReducedSpec(ps: seq<Payment>)
    ensures PayeesOf(Reduced(ps)) == Payees(Filtered(ps))
    ensures Distinct(PayeesOf(Reduced(ps)))
    ensures forall q :: q in PayeesOf(Reduced(ps)) <==> exists x :: x in ps && Kept(x) && x.payee == q
    ensures forall i :: 0 <= i < |Reduced(ps)| ==>
      Reduced(ps)[i].payee != "" && Reduced(ps)[i].amount == SumFor(ps, Reduced(ps)[i].payee) > 0
  {
    var fs := Filtered(ps);
    var r := Reduced(ps);
    FilteredSpec(ps);
    PayeesSpec(fs);
    assert PayeesOf(r) == Payees(fs);
    forall q ensures q in PayeesOf(r) <==> exists x :: x in ps && Kept(x) && x.payee == q {
      assert q in PayeesOf(r) <==> q in Elems(Payees(fs));
    }
    forall i | 0 <= i < |r| ensures r[i].payee != "" && r[i].amount == SumFor(ps, r[i].payee) > 0 {
      var q := Payees(fs)[i];
      assert q in Elems(Payees(fs));
      var x :| x in fs && x.payee == q;
      FilteredSum(ps, q);
      SumForPositive(fs, q);
    }
  }

  /** Grouping conserves the total: what is kept plus what goes to the empty payee is everything. */
  lemma ReducedTotal(ps: seq<Payment>)
    ensures Total(Reduced(ps)) + SumFor(ps, "") == Total(ps)
  {
    var fs := Filtered(ps);
    PayeesSpec(fs);
    forall x | x in fs ensures x.payee in Payees(fs) {
      assert x.payee in PayeeSet(fs);
    }
    GroupTotal(Payees(fs), fs);
    FilteredTotal(ps);
  }

  // ---------------------------------------------------------------------------
  // Payment nodes: properties
  // ---------------------------------------------------------------------------

  lemma {:induction false} LastCommaAfter(a: string, d: string)
    requires forall i :: 0 <= i < |d| ==> IsDigit(d[i])
    ensures LastComma(a + "," + d) == |a|
  {
    if d != [] {
      var s := a + "," + d;
      assert s[..|s| - 1] == a + "," + d[..|d| - 1];
      LastCommaAfter(a, d[..|d| - 1]);
    }
  }

  /** A node reads back as the payment it was made from, whatever commas the payee holds. */
  lemma NodeRoundTrip(x: Payment)
    ensures DecodeNode(EncodeNode(x)) == Some(x)
  {
    var s := EncodeNode(x);
    LastCommaAfter(x.payee, Decimal(x.amount));
    assert s[..|x.payee|] == x.payee;
    assert s[|x.payee| + 1..] == Decimal(x.amount);
    DecimalRoundTrip(x.amount);
  }

  /** Distinct payees give distinct, non-empty nodes. */
  lemma NodesDistinct(r: seq<Payment>)
    requires Distinct(PayeesOf(r))
    ensures Distinct(Nodes(r))
    ensures forall i :: 0 <= i < |r| ==> |Nodes(r)[i]| >= 2
  {
    forall i, j | 0 <= i < j < |r| ensures Nodes(r)[i] != Nodes(r)[j] {
      NodeRoundTrip(r[i]);
      NodeRoundTrip(r[j]);
      assert PayeesOf(r)[i] != PayeesOf(r)[j];
    }
  }

  // ---------------------------------------------------------------------------
  // Lookups: properties
  // ---------------------------------------------------------------------------

  /** The amount of the first entry for `p`, or 0 when there is none. */
  lemma {:induction false} AmountForSpec(r: seq<Payment>, p: string)
    ensures p !in PayeesOf(r) ==> AmountFor(r, p) == 0
    ensures forall i :: 0 <= i < |r| && r[i].payee == p && p !in PayeesOf(r)[..i] ==> AmountFor(r, p) == r[i].amount
  {
    if r != [] {
      AmountForSpec(r[1..], p);
      assert PayeesOf(r) == [r[0].payee] + PayeesOf(r[1..]);
      forall i | 0 < i < |r| && r[i].payee == p && p !in PayeesOf(r)[..i] ensures AmountFor(r, p) == r[i].amount {
        assert r[1..][i - 1] == r[i];
        assert PayeesOf(r)[..i] == [r[0].payee] + PayeesOf(r[1..])[..i - 1];
      }
    }
  }

  /** With distinct payees, the lookup returns the amount of the one entry for `p`, and 0 exactly when there is none. */
  lemma AmountForUnique(r: seq<Payment>, p: string)
    requires Distinct(PayeesOf(r))
    requires forall i :: 0 <= i < |r| ==> r[i].amount > 0
    ensures AmountFor(r, p) > 0 <==> p in PayeesOf(r)
    ensures forall i :: 0 <= i < |r| && r[i].payee == p ==> AmountFor(r, p) == r[i].amount
  {
    AmountForSpec(r, p);
    forall i | 0 <= i < |r| && r[i].payee == p ensures AmountFor(r, p) == r[i].amount {
      assert p !in PayeesOf(r)[..i] by {
        forall j | 0 <= j < i ensures PayeesOf(r)[j] != p {
          assert PayeesOf(r)[j] != PayeesOf(r)[i];
        }
      }
    }
    if p in PayeesOf(r) {
      var i :| 0 <= i < |r| && PayeesOf(r)[i] == p;
    }
  }

  /** On the reduced list the exact-match lookup returns the payee's whole total, and 0 for the empty payee. */
  lemma AmountForReduced(ps: seq<Payment>, p: string)
    ensures AmountFor(Reduced(ps), p) == if p == "" then 0 else SumFor(ps, p)
  {
    var fs := Filtered(ps);
    var r := Reduced(ps);
    ReducedSpec(ps);
    AmountForSpec(r, p);
    if p in PayeesOf(r) {
      var i :| 0 <= i < |r| && PayeesOf(r)[i] == p;
      assert p !in PayeesOf(r)[..i] by {
        forall j | 0 <= j < i ensures PayeesOf(r)[j] != p {
          assert PayeesOf(r)[j] != PayeesOf(r)[i];
        }
      }
    } else if p != "" {
      PayeesSpec(fs);
      assert p !in Elems(Payees(fs));
      SumForAbsent(fs, p);
      FilteredSum(ps, p);
    }
  }

  /** `s.indexOf(p) > -1` holds exactly when `p` occurs somewhere in `s`. */
  lemma ContainsSpec(s: string, p: string)
    ensures Contains(s, p) <==> exists i: nat :: OccursAt(s, p, i)
  {
    if exists i: nat :: OccursAt(s, p, i) {
      var i: nat :| OccursAt(s, p, i);
      assert i <= |s|;
    }
  }

  /** A node contains its own payee. */
  lemma OwnPayeeContained(x: Payment)
    ensures Contains(EncodeNode(x), x.payee)
  {
    assert OccursAt(EncodeNode(x), x.payee, 0);
    ContainsSpec(EncodeNode(x), x.payee);
  }

  /** `find` yields the first node containing `p`, and nothing only when no node contains it. */
  lemma {:induction false} FindNodeSpec(nodes: seq<string>, p: string)
    ensures FindNode(nodes, p).None? <==> forall n :: n in nodes ==> !Contains(n, p)
    ensures FindNode(nodes, p).Some? ==> FindNode(nodes, p).value in nodes && Contains(FindNode(nodes, p).value, p)
    ensures FindNode(nodes, p).Some? ==>
      exists i :: 0 <= i < |nodes| && nodes[i] == FindNode(nodes, p).value && forall j :: 0 <= j < i ==> !Contains(nodes[j], p)
  {
    if nodes != [] {
      var tail := nodes[1..];
      FindNodeSpec(tail, p);
      assert nodes == [nodes[0]] + tail;
      if Contains(nodes[0], p) {
        assert nodes[0] == FindNode(nodes, p).value;
      } else if FindNode(tail, p).Some? {
        var i :| 0 <= i < |tail| && tail[i] == FindNode(tail, p).value && forall j :: 0 <= j < i ==> !Contains(tail[j], p);
        assert nodes[i + 1] == tail[i];
        forall j | 0 <= j < i + 1 ensures !Contains(nodes[j], p) {
          if j > 0 {
            assert nodes[j] == tail[j - 1];
          }
        }
      }
    }
  }

  /** Every payee of the reduced list finds a node. */
  lemma PayeeFindsNode(r: seq<Payment>, p: string)
    requires p in PayeesOf(r)
    ensures FindNode(Nodes(r), p).Some?
  {
    var i :| 0 <= i < |r| && PayeesOf(r)[i] == p;
    OwnPayeeContained(r[i]);
    FindNodeSpec(Nodes(r), p);
    assert Nodes(r)[i] in Nodes(r);
  }

  /**
   * An Ethereum-style payee: `len` characters, no comma, and at least one
   * character that is not a decimal digit (the `x` of `0x…`).
   */
  predicate AddressLike(q: string, len: nat) {
    && |q| == len
    && (forall k :: 0 <= k < |q| ==> q[k] != ',')
    && (exists k :: 0 <= k < |q| && !IsDigit(q[k]))
  }

  /** Between address-like payees of one length, a node contains only its own payee. */
  lemma OnlyOwnPayeeContained(x: Payment, p: string, len: nat)
    requires AddressLike(x.payee, len) && AddressLike(p, len)
    requires Contains(EncodeNode(x), p)
    ensures x.payee == p
  {
    var s := EncodeNode(x);
    var d := Decimal(x.amount);
    ContainsSpec(s, p);
    var k: nat :| OccursAt(s, p, k);
    assert s == x.payee + "," + d;
    forall j | k <= j < k + len ensures s[j] != ',' {
      assert s[j] == s[k..k + len][j - k] == p[j - k];
    }
    assert s[len] == ',';
    assert !(1 <= k <= len);
    forall j | len < j < |s| ensures IsDigit(s[j]) {
      assert s[j] == d[j - len - 1];
    }
    var m :| 0 <= m < len && !IsDigit(p[m]);
    assert s[k + m] == s[k..k + len][m] == p[m];
    assert !(k > len);
    assert k == 0;
    assert s[..len] == p;
  }

  /**
   * When all payees are address-like of one length, `hexProofForPayee`'s
   * substring match finds the payee's own node.
   */
  lemma AddressFindsOwnNode(r: seq<Payment>, p: string, i: nat, len: nat)
    requires Distinct(PayeesOf(r))
    requires forall k :: 0 <= k < |r| ==> AddressLike(r[k].payee, len)
    requires i < |r| && r[i].payee == p
    ensures FindNode(Nodes(r), p) == Some(Nodes(r)[i])
  {
    assert PayeesOf(r)[i] == p;
    PayeeFindsNode(r, p);
    var nodes := Nodes(r);
    FindNodeSpec(nodes, p);
    var j :| 0 <= j < |nodes| && nodes[j] == FindNode(nodes, p).value &&
      forall k :: 0 <= k < j ==> !Contains(nodes[k], p);
    OnlyOwnPayeeContained(r[j], p, len);
    assert PayeesOf(r)[j] == p;
    assert j == i;
  }

  /**
   * With address-like payees the node that `hexProofForPayee` proves reads
   * back as the payee and the amount `amountForPayee` puts in the prefix.
   */
  lemma AddressNodeMatchesAmount(r: seq<Payment>, p: string, i: nat, len: nat)
    requires Distinct(PayeesOf(r))
    requires forall k :: 0 <= k < |r| ==> r[k].amount > 0 && AddressLike(r[k].payee, len)
    requires i < |r| && r[i].payee == p
    ensures FindNode(Nodes(r), p).Some?
    ensures DecodeNode(FindNode(Nodes(r), p).value) == Some(Payment(p, AmountFor(r, p)))
  {
    AddressFindsOwnNode(r, p, i, len);
    NodeRoundTrip(r[i]);
    AmountForUnique(r, p);
  }

  /**
   * The substring match is not an exact match: when one payee is part of
   * another, the other payee's node can be found first, so the proof is for
   * a different leaf than the amount looked up by exact match.
   */
  lemma SubstringMatchPicksOtherNode()
    ensures var r := Reduced([Payment("0xab", 1), Payment("b", 2)]);
      && FindNode(Nodes(r), "b") == Some("0xab,1")
      && AmountFor(r, "b") == 2
  {
    var ps := [Payment("0xab", 1), Payment("b", 2)];
    assert ps[..1] == [Payment("0xab", 1)];
    assert Filtered(ps) == ps;
    assert Payees(ps) == ["0xab", "b"];
    var r := Reduced(ps);
    assert SumFor(ps, "0xab") == 1;
    assert SumFor(ps, "b") == 2;
    assert r == [Payment("0xab", 1), Payment("b", 2)];
    assert Decimal(1) == "1";
    assert Nodes(r)[0] == "0xab,1";
    assert OccursAt("0xab,1", "b", 3);
    ContainsSpec("0xab,1", "b");
    ReducedSpec(ps);
    AmountForReduced(ps, "b");
  }
}
