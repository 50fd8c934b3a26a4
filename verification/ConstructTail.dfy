/** What a greedy range reads and where it stops. */
module ConstructTail {
  import opened Common
  import opened Construct
  import opened ConstructLaws

  /** A piece of input: from these bytes the value is read, and those are left. */
  type Piece = (bytes, Value, bytes) -> bool

  /** What `item` reads. */
  function Reads(cs: Codecs, item: Con, ctx: Context): Piece {
    (from, v, left) =>
      var p := Parse(cs, item, ctx, from);
      p.Some? && p.value.value == v && p.value.rest == left
  }

  /** Item `i` is what is read at `starts[i]`, and it ends where the next one starts. */
  ghost predicate Tiles(piece: Piece, input: bytes, items: seq<Value>, starts: seq<nat>) {
    && |starts| == |items| + 1
    && (forall i :: 0 <= i <= |items| ==> starts[i] <= |input|)
    && forall i :: 0 <= i < |items| ==> TileAt(piece, input, items, starts, i)
  }

  ghost predicate TileAt(piece: Piece, input: bytes, items: seq<Value>, starts: seq<nat>, i: nat)
    requires i < |items| < |starts| && starts[i] <= |input| && starts[i + 1] <= |input|
  {
    starts[i] < starts[i + 1] && piece(input[starts[i]..], items[i], input[starts[i + 1]..])
  }

  lemma TilesPrepend(piece: Piece, input: bytes, n: nat, v: Value, items: seq<Value>, starts: seq<nat>)
    requires 0 < n <= |input| && piece(input, v, input[n..])
    requires Tiles(piece, input[n..], items, starts) && starts[0] == 0
    ensures var all := [0] + Shifted(starts, n);
            && Tiles(piece, input, [v] + items, all) && all[0] == 0
            && input[all[|all| - 1]..] == input[n..][starts[|starts| - 1]..]
  {
    var all, points := [v] + items, [0] + Shifted(starts, n);
    forall i | 0 <= i < |all|
      ensures TileAt(piece, input, all, points, i)
    {
      if i == 0 {
        assert input[0..] == input;
      } else {
        assert TileAt(piece, input[n..], items, starts, i - 1);
        DropDrop(input, n, starts[i - 1]);
        DropDrop(input, n, starts[i]);
      }
    }
    DropDrop(input, n, starts[|starts| - 1]);
    assert points[|points| - 1] == starts[|starts| - 1] + n;
  }

  lemma DropDrop(s: bytes, n: nat, m: nat)
    requires n + m <= |s|
    ensures s[n..][m..] == s[m + n..]
  {
  }

  function Shifted(starts: seq<nat>, n: nat): (r: seq<nat>)
    ensures |r| == |starts| && forall i :: 0 <= i < |r| ==> r[i] == starts[i] + n
  {
    if starts == [] then [] else [starts[0] + n] + Shifted(starts[1..], n)
  }

  /** How much the first item of a greedy range takes, and what the range is after it. */
  lemma GreedyStep(cs: Codecs, item: Con, ctx: Context, input: bytes) returns (p: Parsed, q: Parsed, n: nat)
    requires Ready(cs, ctx, ctx) && ParseGreedy(cs, item, ctx, input).Some? && Parse(cs, item, ctx, input).Some?
    ensures 0 < n <= |input| && q.value.Listing?
    ensures ParseGreedy(cs, item, ctx, input[n..]) == Some(q)
    ensures ParseGreedy(cs, item, ctx, input).value.value.items == [p.value] + q.value.items
    ensures ParseGreedy(cs, item, ctx, input).value.rest == q.rest
    ensures Reads(cs, item, ctx)(input, p.value, input[n..])
  {
    p := Parse(cs, item, ctx, input).value;
    RoundTrip(cs, item, ctx, ctx, input);
    n := |input| - |p.rest|;
    q := ParseGreedy(cs, item, ctx, p.rest).value;
  }

  /**
   A greedy range tiles a prefix of its input with its items, and what is left
   over does not begin with one more.
   */
  lemma {:induction false} GreedyTilesPrefix(cs: Codecs, item: Con, ctx: Context, input: bytes) returns (starts: seq<nat>)
    requires Ready(cs, ctx, ctx) && ParseGreedy(cs, item, ctx, input).Some?
    ensures var p := ParseGreedy(cs, item, ctx, input).value;
            && Tiles(Reads(cs, item, ctx), input, p.value.items, starts)
            && starts[0] == 0
            && p.rest == input[starts[|starts| - 1]..]
            && Parse(cs, item, ctx, p.rest).None?
    decreases |input|
  {
    if Parse(cs, item, ctx, input).None? {
      starts := [0];
    } else {
      var p, q, n := GreedyStep(cs, item, ctx, input);
      var rest := GreedyTilesPrefix(cs, item, ctx, input[n..]);
      starts := [0] + Shifted(rest, n);
      TilesPrepend(Reads(cs, item, ctx), input, n, p.value, q.value.items, rest);
    }
  }

  lemma {:induction false} TilingIsGreedyFrom(cs: Codecs, item: Con, ctx: Context, input: bytes, items: seq<Value>,
                                              starts: seq<nat>, k: nat)
    requires Tiles(Reads(cs, item, ctx), input, items, starts) && k <= |items|
    requires Parse(cs, item, ctx, input[starts[|items|]..]).None?
    ensures var p := ParseGreedy(cs, item, ctx, input[starts[k]..]);
            p.Some? && p.value.value == Listing(items[k..]) && p.value.rest == input[starts[|items|]..]
    decreases |items| - k
  {
    if k < |items| {
      TilingIsGreedyFrom(cs, item, ctx, input, items, starts, k + 1);
      assert TileAt(Reads(cs, item, ctx), input, items, starts, k);
      assert items[k..] == [items[k]] + items[k + 1..];
    } else {
      assert items[k..] == [];
    }
  }

  /** Items that tile a prefix after which no item begins are what a greedy range reads, and it leaves the rest. */
  lemma TilingIsGreedy(cs: Codecs, item: Con, ctx: Context, input: bytes, items: seq<Value>, starts: seq<nat>)
    requires Tiles(Reads(cs, item, ctx), input, items, starts) && starts[0] == 0
    requires Parse(cs, item, ctx, input[starts[|items|]..]).None?
    ensures var p := ParseGreedy(cs, item, ctx, input);
            p.Some? && p.value.value == Listing(items) && p.value.rest == input[starts[|items|]..]
  {
    TilingIsGreedyFrom(cs, item, ctx, input, items, starts, 0);
    assert input[0..] == input && items[0..] == items;
  }
}
