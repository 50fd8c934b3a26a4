/**
 Cutting an unframed ReadDataByIdentifier reply into (identifier, value) pairs.
 The reply carries no lengths, so each identifier is searched for leftmost at
 or after the end of the previous one.
 */
module DidSplit {
  import opened Common
  import opened HexText

  type Did = x: int | 0 <= x < 0x1_0000

  /** An identifier and the bytes that belong to it. */
  type Pair = (Did, bytes)

  /** The tuple `_split_dids` appends: the value is hexadecimal text. */
  datatype Rdid = Rdid(did: Did, data: string)

  function DidBytes(d: Did): (r: bytes) {
    [d / 256, d % 256]
  }

  /** The two bytes of `d`, most significant first, stand at position `p`. */
  predicate At(data: bytes, d: Did, p: int) {
    0 <= p && p + 2 <= |data| && data[p] == d / 256 && data[p + 1] == d % 256
  }

  /** `bytes.find`: the first occurrence at or after `from`, or -1. */
  function Find(data: bytes, d: Did, from: nat): (r: int)
    ensures r == -1 || (from <= r && At(data, d, r))
    decreases |data| - from
  {
    if from + 2 > |data| then -1
    else if At(data, d, from) then from
    else Find(data, d, from + 1)
  }

  lemma {:induction false} FindIsLeftmost(data: bytes, d: Did, from: nat, p: nat)
    requires from <= p && At(data, d, p)
    ensures 0 <= Find(data, d, from) <= p
    decreases |data| - from
  {
    if !At(data, d, from) {
      FindIsLeftmost(data, d, from + 1, p);
    }
  }

  /** Greedy leftmost positions of a prefix of `dids`, as long as the search succeeds. */
  function Greedy(data: bytes, dids: seq<Did>, from: nat): (ps: seq<nat>)
    ensures |ps| <= |dids|
  {
    if dids == [] then []
    else
      var p := Find(data, dids[0], from);
      if p == -1 then [] else [p] + Greedy(data, dids[1..], p + 2)
  }

  /** The identifiers at the positions `ps`, each with the bytes up to the next position or to the end. */
  function Cut(data: bytes, dids: seq<Did>, ps: seq<nat>): (r: seq<Pair>)
    requires |ps| <= |dids|
    ensures |r| == |ps|
    ensures forall i :: 0 <= i < |r| ==> r[i].0 == dids[i]
  {
    if ps == [] then []
    else [(dids[0], ValueAt(data, ps))] + Cut(data, dids[1..], ps[1..])
  }

  function ValueAt(data: bytes, ps: seq<nat>): bytes
    requires ps != []
  {
    if |ps| == 1 then Tail(data, ps[0] + 2) else Slice(data, ps[0] + 2, ps[1])
  }

  /**
   The answer to a request for `dids`. When the first identifier is absent the
   second one is taken at position 0 without a look at what stands there.
   */
  function Split(data: bytes, dids: seq<Did>): (r: seq<Pair>) {
    if dids == [] then []
    else if Find(data, dids[0], 0) != -1 then Cut(data, dids, Greedy(data, dids, 0))
    else if |dids| == 1 then []
    else
      var rest := dids[1..];
      Cut(data, rest, [0] + Greedy(data, rest[1..], 2))
  }

  /** `values` is `pairs` with every value written in hexadecimal. */
  ghost predicate WrittenAs(pairs: seq<Pair>, values: seq<Rdid>) {
    && |values| == |pairs|
    && forall i :: 0 <= i < |values| ==> values[i] == Rdid(pairs[i].0, Hex(pairs[i].1))
  }

  // ---- The loop ---------------------------------------------------------------------

  /** The pairs for `dids` when the first of them is taken at `p`. */
  function Rest(data: bytes, dids: seq<Did>, p: nat): (r: seq<Pair>)
    requires dids != []
    decreases |dids|
  {
    var n := if |dids| > 1 then Find(data, dids[1], p + 2) else -1;
    if n == -1 then [(dids[0], Tail(data, p + 2))]
    else [(dids[0], Slice(data, p + 2, n))] + Rest(data, dids[1..], n)
  }

  lemma {:induction false} RestIsCut(data: bytes, dids: seq<Did>, p: nat)
    requires dids != []
    ensures Rest(data, dids, p) == Cut(data, dids, [p] + Greedy(data, dids[1..], p + 2))
    decreases |dids|
  {
    var ps := Greedy(data, dids[1..], p + 2);
    assert ([p] + ps)[1..] == ps;
    if |dids| > 1 && Find(data, dids[1], p + 2) != -1 {
      assert ps[0] == Find(data, dids[1], p + 2);
      RestIsCut(data, dids[1..], ps[0]);
    }
  }

  lemma SplitStart(data: bytes, dids: seq<Did>)
    requires dids != []
    ensures var p := Find(data, dids[0], 0);
            Split(data, dids)
            == if p != -1 then Rest(data, dids, p)
               else if |dids| == 1 then [] else Rest(data, dids[1..], 0)
  {
    var p := Find(data, dids[0], 0);
    if p != -1 {
      assert Greedy(data, dids, 0) == [p] + Greedy(data, dids[1..], p + 2);
      RestIsCut(data, dids, p);
    } else if |dids| > 1 {
      var rest := dids[1..];
      assert Split(data, dids) == Cut(data, rest, [0] + Greedy(data, rest[1..], 2));
      RestIsCut(data, rest, 0);
    }
  }

  /** What the loop still has to append when it stands at index `i`. */
  function Remaining(data: bytes, dids: seq<Did>, i: nat, next: int): (r: seq<Pair>)
    requires i <= |dids| && next >= -1
  {
    if i == |dids| || next == -1 then [] else Rest(data, dids[i..], next)
  }

  lemma AppendStep(done: seq<Pair>, data: bytes, dids: seq<Did>, i: nat, p: nat)
    requires i < |dids|
    ensures var n := if i + 1 < |dids| then Find(data, dids[i + 1], p + 2) else -1;
            var value := if n == -1 then Tail(data, p + 2) else Slice(data, p + 2, n);
            done + Remaining(data, dids, i, p) == done + [(dids[i], value)] + Remaining(data, dids, i + 1, n)
  {
    assert i + 1 < |dids| ==> dids[i..][1..] == dids[i + 1..] && dids[i..][1] == dids[i + 1];
  }

  lemma WrittenAppend(pairs: seq<Pair>, values: seq<Rdid>, d: Did, value: bytes)
    requires WrittenAs(pairs, values)
    ensures WrittenAs(pairs + [(d, value)], values + [Rdid(d, Hex(value))])
  {
  }

  /** The loop of `_split_dids`. */
  method SplitDids(dids: seq<Did>, data: bytes) returns (values: seq<Rdid>)
    ensures WrittenAs(Split(data, dids), values)
  {
    values := [];
    var next := 0;
    ghost var done: seq<Pair> := [];
    for i := 0 to |dids|
      invariant next >= -1
      invariant WrittenAs(done, values)
      invariant i == 0 ==> next == 0 && done == []
      invariant i > 0 ==> done + Remaining(data, dids, i, next) == Split(data, dids)
    {
      var curr := if i == 0 then Find(data, dids[i], 0) else next;
      if i == 0 {
        SplitStart(data, dids);
        assert dids[0..] == dids;
      }
      if curr == -1 {
        continue;
      }
      AppendStep(done, data, dids, i, curr);
      var value;
      if i < |dids| - 1 {
        next := Find(data, dids[i + 1], curr + 2);
        if next == -1 {
          value := Tail(data, curr + 2);
        } else {
          value := Slice(data, curr + 2, next);
        }
      } else {
        value := Tail(data, curr + 2);
      }
      WrittenAppend(done, values, dids[i], value);
      values := values + [Rdid(dids[i], Hex(value))];
      done := done + [(dids[i], value)];
    }
  }

  // ---- Completeness: the leftmost choice never loses ------------------------------------

  /** The first `|q|` identifiers stand, in order and without overlap, at the positions `q`. */
  ghost predicate Placed(data: bytes, dids: seq<Did>, q: seq<nat>) {
    && |q| <= |dids|
    && (forall i :: 0 <= i < |q| ==> At(data, dids[i], q[i]))
    && (forall i :: 0 <= i < |q| - 1 ==> q[i] + 2 <= q[i + 1])
  }

  lemma {:induction false} GreedyIsPlaced(data: bytes, dids: seq<Did>, from: nat)
    ensures Placed(data, dids, Greedy(data, dids, from))
    ensures Greedy(data, dids, from) != [] ==> from <= Greedy(data, dids, from)[0]
    decreases |dids|
  {
    if dids != [] && Find(data, dids[0], from) != -1 {
      GreedyIsPlaced(data, dids[1..], Find(data, dids[0], from) + 2);
    }
  }

  /** Exchange argument: no placement gets further, and none is to the left anywhere. */
  lemma {:induction false} GreedyIsLeftmost(data: bytes, dids: seq<Did>, from: nat, q: seq<nat>)
    requires Placed(data, dids, q) && (q != [] ==> from <= q[0])
    ensures |q| <= |Greedy(data, dids, from)|
    ensures forall i :: 0 <= i < |q| ==> Greedy(data, dids, from)[i] <= q[i]
    decreases |dids|
  {
    if q != [] {
      FindIsLeftmost(data, dids[0], from, q[0]);
      GreedyIsLeftmost(data, dids[1..], Find(data, dids[0], from) + 2, q[1..]);
    }
  }

  /**
   When the first identifier occurs, the answer names the longest prefix of the
   request that has any in-order, non-overlapping placement at all.
   */
  lemma SplitNamesLongestPlaceablePrefix(data: bytes, dids: seq<Did>, k: nat)
    requires dids != [] && Find(data, dids[0], 0) != -1
    ensures k <= |Split(data, dids)| <==> exists q :: |q| == k && Placed(data, dids, q)
    ensures |Split(data, dids)| <= |dids|
    ensures forall i :: 0 <= i < |Split(data, dids)| ==> Split(data, dids)[i].0 == dids[i]
  {
    var g := Greedy(data, dids, 0);
    GreedyIsPlaced(data, dids, 0);
    if k <= |g| {
      assert Placed(data, dids, g[..k]);
    }
    forall q | |q| == k && Placed(data, dids, q)
      ensures k <= |g|
    {
      GreedyIsLeftmost(data, dids, 0, q);
    }
  }

  /**
   When the first identifier is absent, the second one is named whatever opens the reply, and after it the longest
   prefix of the others that has a placement behind the first two bytes; of a single identifier nothing comes.
   */
  lemma AbsentFirstIdentifierIsSkipped(data: bytes, dids: seq<Did>, k: nat)
    requires dids != [] && Misses(data, dids[0])
    ensures |dids| == 1 ==> Split(data, dids) == []
    ensures |dids| > 1 ==>
              var r := Split(data, dids);
              && 1 <= |r| < |dids| && (forall i :: 0 <= i < |r| ==> r[i].0 == dids[i + 1])
              && (k + 1 <= |r| <==> exists q :: |q| == k && Placed(data, dids[2..], q) && (q != [] ==> 2 <= q[0]))
              && Join(r)[2..] == Tail(data, 2)
  {
    assert Find(data, dids[0], 0) == -1;
    if |dids| > 1 {
      var rest := dids[1..];
      var g := Greedy(data, rest[1..], 2);
      assert rest[1..] == dids[2..];
      GreedyIsPlaced(data, dids[2..], 2);
      if k <= |g| {
        assert Placed(data, dids[2..], g[..k]);
      }
      forall q | |q| == k && Placed(data, dids[2..], q) && (q != [] ==> 2 <= q[0])
        ensures k <= |g|
      {
        GreedyIsLeftmost(data, dids[2..], 2, q);
      }
      SplitStart(data, dids);
      OpeningConserves(data, rest);
    }
  }

  /** Every byte behind the first two is in the answer, once. */
  lemma OpeningConserves(data: bytes, dids: seq<Did>)
    requires dids != []
    ensures Join(Rest(data, dids, 0))[2..] == Tail(data, 2)
  {
    var n := if |dids| > 1 then Find(data, dids[1], 2) else -1;
    if n != -1 {
      RestConserves(data, dids[1..], n);
      assert Rest(data, dids, 0)[1..] == Rest(data, dids[1..], n);
      assert data[2..] == data[2..n] + data[n..];
    } else {
      assert Rest(data, dids, 0)[1..] == [];
    }
  }

  // ---- Where values end -------------------------------------------------------------------

  /** In the bytes `v` and the identifier behind them, that identifier first occurs at the end of `v`. */
  ghost predicate EndsAtFirst(v: bytes, d: Did) {
    forall q: nat :: q < |v| ==> !At(v + DidBytes(d), d, q)
  }

  /** The identifier stands nowhere in these bytes. */
  ghost predicate Misses(v: bytes, d: Did) {
    forall q :: !At(v, d, q)
  }

  lemma TailMisses(data: bytes, d: Did, from: nat)
    requires from <= |data| && Find(data, d, from) == -1
    ensures Misses(data[from..], d)
  {
    var v := data[from..];
    forall q
      ensures !At(v, d, q)
    {
      if At(v, d, q) {
        FindIsLeftmost(data, d, from, from + q);
      }
    }
  }

  lemma ValueEndsAtFirst(data: bytes, d: Did, from: nat)
    requires from <= |data| && Find(data, d, from) != -1
    ensures EndsAtFirst(data[from..Find(data, d, from)], d)
  {
    var n := Find(data, d, from);
    var v := data[from..n];
    forall q: nat | q < |v|
      ensures !At(v + DidBytes(d), d, q)
    {
      assert v + DidBytes(d) == data[from..n + 2];
      if At(data, d, from + q) {
        FindIsLeftmost(data, d, from, from + q);
      }
    }
  }

  lemma {:induction false} RestCutsAtFirst(data: bytes, dids: seq<Did>, p: nat)
    requires dids != [] && p + 2 <= |data|
    ensures var r := Rest(data, dids, p);
            && 1 <= |r| <= |dids| && r[0].0 == dids[0]
            && (forall i :: 0 <= i < |r| - 1 ==> EndsAtFirst(r[i].1, r[i + 1].0))
            && (|r| < |dids| ==> Misses(r[|r| - 1].1, dids[|r|]))
    decreases |dids|
  {
    hide EndsAtFirst, Misses;
    var n := if |dids| > 1 then Find(data, dids[1], p + 2) else -1;
    if n == -1 {
      if |dids| > 1 {
        TailMisses(data, dids[1], p + 2);
      }
    } else {
      var rest := Rest(data, dids[1..], n);
      RestCutsAtFirst(data, dids[1..], n);
      ValueEndsAtFirst(data, dids[1], p + 2);
      var r := Rest(data, dids, p);
      assert r == [(dids[0], data[p + 2..n])] + rest;
      forall i | 0 <= i < |r| - 1
        ensures EndsAtFirst(r[i].1, r[i + 1].0)
      {
        assert i > 0 ==> EndsAtFirst(rest[i - 1].1, rest[i].0);
      }
    }
  }

  /**
   When the first identifier occurs, each value ends where the next identifier first occurs behind it, and the last
   value does not hold the identifier that comes next in the request, if there is one.
   */
  lemma SplitCutsAtFirstOccurrence(data: bytes, dids: seq<Did>)
    requires dids != [] && Find(data, dids[0], 0) != -1
    ensures var r := Split(data, dids);
            && 1 <= |r| <= |dids|
            && (forall i :: 0 <= i < |r| - 1 ==> EndsAtFirst(r[i].1, r[i + 1].0))
            && (|r| < |dids| ==> Misses(r[|r| - 1].1, dids[|r|]))
  {
    SplitStart(data, dids);
    RestCutsAtFirst(data, dids, Find(data, dids[0], 0));
  }

  // ---- Conservation -----------------------------------------------------------------------

  /** The server's framing: identifier bytes and value of every pair, in order. */
  function Join(pairs: seq<Pair>): (r: bytes) {
    if pairs == [] then [] else DidBytes(pairs[0].0) + pairs[0].1 + Join(pairs[1..])
  }

  lemma JoinParts(data: bytes, pairs: seq<Pair>, p: nat)
    requires pairs != [] && p <= |data| && data[p..] == Join(pairs)
    ensures var q := p + 2 + |pairs[0].1|;
            && q <= |data|
            && At(data, pairs[0].0, p)
            && data[p + 2..q] == pairs[0].1
            && data[q..] == Join(pairs[1..])
  {
    var (d, v) := pairs[0];
    var q := p + 2 + |v|;
    assert Join(pairs) == DidBytes(d) + (v + Join(pairs[1..]));
    assert data[p] == data[p..][0] && data[p + 1] == data[p..][1];
    assert data[p + 2..] == data[p..][2..] == v + Join(pairs[1..]);
    assert data[p + 2..q] == data[p + 2..][..|v|] && data[q..] == data[p + 2..][|v|..];
  }

  lemma {:induction false} RestConserves(data: bytes, dids: seq<Did>, p: nat)
    requires dids != [] && At(data, dids[0], p)
    ensures Join(Rest(data, dids, p)) == data[p..]
    decreases |dids|
  {
    var n := if |dids| > 1 then Find(data, dids[1], p + 2) else -1;
    if n != -1 {
      RestConserves(data, dids[1..], n);
      assert Rest(data, dids, p)[1..] == Rest(data, dids[1..], n);
      PairConserves(data, dids[0], p, n);
    } else {
      assert Rest(data, dids, p)[1..] == [];
      PairConserves(data, dids[0], p, |data|);
    }
  }

  lemma PairConserves(data: bytes, did: Did, p: nat, n: nat)
    requires At(data, did, p) && p + 2 <= n <= |data|
    ensures DidBytes(did) + data[p + 2..n] + data[n..] == data[p..]
  {
    assert data[p..] == DidBytes(did) + data[p + 2..];
  }

  /** No byte from the first identifier on is lost or repeated, also when a later identifier is missing. */
  lemma SplitConservesBytes(data: bytes, dids: seq<Did>)
    requires dids != [] && Find(data, dids[0], 0) != -1
    ensures Join(Split(data, dids)) == data[Find(data, dids[0], 0)..]
  {
    SplitStart(data, dids);
    RestConserves(data, dids, Find(data, dids[0], 0));
  }

  // ---- When the answer is backed by the reply -----------------------------------------------

  /** Every identifier named stands in the reply right before its value. */
  ghost predicate Backed(data: bytes, pairs: seq<Pair>) {
    pairs == [] || exists p: nat :: p <= |data| && data[p..] == Join(pairs)
  }

  lemma {:induction false} RestLength(data: bytes, dids: seq<Did>, p: nat)
    requires dids != []
    ensures |Join(Rest(data, dids, p))| == if p + 2 <= |data| then |data| - p else 2
    decreases |dids|
  {
    var n := if |dids| > 1 then Find(data, dids[1], p + 2) else -1;
    if n != -1 {
      RestLength(data, dids[1..], n);
      assert Rest(data, dids, p)[1..] == Rest(data, dids[1..], n);
    } else {
      assert Rest(data, dids, p)[1..] == [];
    }
  }

  lemma BackedRestOpensReply(data: bytes, dids: seq<Did>, p: nat)
    requires dids != [] && p <= |data| && data[p..] == Join(Rest(data, dids, 0))
    ensures At(data, dids[0], 0)
  {
    RestLength(data, dids, 0);
    JoinParts(data, Rest(data, dids, 0), p);
  }

  /**
   The answer is backed by the reply except when the first of several
   identifiers is absent and the second does not happen to open the reply.
   */
  lemma SplitIsBackedExactlyWhen(data: bytes, dids: seq<Did>)
    ensures Backed(data, Split(data, dids))
            <==> |dids| <= 1 || Find(data, dids[0], 0) != -1 || At(data, dids[1], 0)
  {
    if dids != [] {
      SplitStart(data, dids);
      if Find(data, dids[0], 0) != -1 {
        RestConserves(data, dids, Find(data, dids[0], 0));
      } else if |dids| > 1 {
        if At(data, dids[1], 0) {
          RestConserves(data, dids[1..], 0);
        } else {
          forall p: nat | p <= |data| && data[p..] == Join(Rest(data, dids[1..], 0))
            ensures false
          {
            BackedRestOpensReply(data, dids[1..], p);
          }
        }
      }
    }
  }

  /** The failing case on one input: the reply answers F190 alone, and F18C is given F190's value. */
  lemma AbsentFirstIdentifierMisleads()
    ensures Split([0xF1, 0x90, 0x41], [0xF187, 0xF18C]) == [(0xF18C, [0x41])]
    ensures !Backed([0xF1, 0x90, 0x41], Split([0xF1, 0x90, 0x41], [0xF187, 0xF18C]))
  {
    var data, dids: seq<Did> := [0xF1, 0x90, 0x41], [0xF187, 0xF18C];
    assert !At(data, 0xF187, 0) && !At(data, 0xF187, 1);
    assert Find(data, 0xF187, 2) == -1;
    assert Find(data, 0xF187, 1) == -1;
    SplitIsBackedExactlyWhen(data, dids);
    SplitStart(data, dids);
    assert Tail(data, 2) == [0x41];
  }

  // ---- Round trip with the server's framing ----------------------------------------------------

  function Dids(pairs: seq<Pair>): (r: seq<Did>)
    ensures |r| == |pairs|
  {
    if pairs == [] then [] else [pairs[0].0] + Dids(pairs[1..])
  }

  /** From each value's start on, the next identifier first occurs where the value ends. */
  ghost predicate Unambiguous(data: bytes, pairs: seq<Pair>, p: nat)
    decreases |pairs|
  {
    |pairs| <= 1
    || (Find(data, pairs[1].0, p + 2) == p + 2 + |pairs[0].1|
        && Unambiguous(data, pairs[1..], p + 2 + |pairs[0].1|))
  }

  /** One step of the round trip: the first pair comes back exactly when the search lands on its end. */
  lemma RestInvertsStep(data: bytes, pairs: seq<Pair>, p: nat, q: nat)
    requires |pairs| > 1 && p + 2 <= q <= |data| && data[p + 2..q] == pairs[0].1
    requires At(data, pairs[1].0, q)
    ensures Rest(data, Dids(pairs), p) == pairs
            <==> Find(data, pairs[1].0, p + 2) == q && Rest(data, Dids(pairs[1..]), q) == pairs[1..]
  {
    var n := Find(data, pairs[1].0, p + 2);
    FindIsLeftmost(data, pairs[1].0, p + 2, q);
    assert Dids(pairs)[1..] == Dids(pairs[1..]) && Dids(pairs)[1] == pairs[1].0;
    var r := Rest(data, Dids(pairs), p);
    assert r == [(pairs[0].0, data[p + 2..n])] + Rest(data, Dids(pairs[1..]), n);
    assert r[1..] == Rest(data, Dids(pairs[1..]), n);
    assert pairs == [pairs[0]] + pairs[1..];
    assert |r[0].1| == n - p - 2 && |pairs[0].1| == q - p - 2;
  }

  lemma UnambiguousStep(data: bytes, pairs: seq<Pair>, p: nat, q: nat)
    requires |pairs| > 1 && q == p + 2 + |pairs[0].1|
    ensures Unambiguous(data, pairs, p) <==> Find(data, pairs[1].0, p + 2) == q && Unambiguous(data, pairs[1..], q)
  {
  }

  lemma {:induction false} RestInvertsJoin(data: bytes, pairs: seq<Pair>, p: nat)
    requires pairs != [] && p <= |data| && data[p..] == Join(pairs)
    ensures Rest(data, Dids(pairs), p) == pairs <==> Unambiguous(data, pairs, p)
    decreases |pairs|
  {
    JoinParts(data, pairs, p);
    var q := p + 2 + |pairs[0].1|;
    if |pairs| == 1 {
      RestOfLast(data, pairs, p);
    } else {
      UnambiguousStep(data, pairs, p, q);
      hide Rest, Unambiguous, Find, Join, Dids, At;
      assert At(data, pairs[1].0, q) by {
        JoinParts(data, pairs[1..], q);
      }
      RestInvertsJoin(data, pairs[1..], q);
      RestInvertsStep(data, pairs, p, q);
    }
  }

  lemma RestOfLast(data: bytes, pairs: seq<Pair>, p: nat)
    requires |pairs| == 1 && p + 2 <= |data| && data[p..] == Join(pairs)
    ensures Rest(data, Dids(pairs), p) == pairs
  {
    JoinParts(data, pairs, p);
    var q := p + 2 + |pairs[0].1|;
    assert data[q..] == [] && data[p + 2..] == data[p + 2..q];
  }

  /** Splitting a reply made of pairs gives exactly those pairs if and only if its framing is unambiguous. */
  lemma SplitInvertsJoin(pairs: seq<Pair>)
    ensures Split(Join(pairs), Dids(pairs)) == pairs <==> Unambiguous(Join(pairs), pairs, 0)
  {
    if pairs != [] {
      var data := Join(pairs);
      assert data[0..] == data;
      JoinParts(data, pairs, 0);
      FindIsLeftmost(data, pairs[0].0, 0, 0);
      SplitStart(data, Dids(pairs));
      RestInvertsJoin(data, pairs, 0);
    }
  }

  /** Reading and writing back: `HexStringCodec` encodes every value of the answer to the bytes of the reply. */
  lemma ReadThenWriteGivesBytesBack(pairs: seq<Pair>, values: seq<Rdid>)
    requires WrittenAs(pairs, values)
    ensures forall i :: 0 <= i < |pairs| ==> FromHex(values[i].data) == Some(pairs[i].1)
  {
    forall i | 0 <= i < |pairs|
      ensures FromHex(values[i].data) == Some(pairs[i].1)
    {
      HexRoundTrip(pairs[i].1);
    }
  }
}
