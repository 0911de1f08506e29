/** Chunk: a sequence of sequences that all draw from one shared pull. Each inner sequence may be consumed as far as
    the consumer likes; the next one still starts at its own boundary. */
module Chunks {
  import opened Wrappers

  // ---------------------------------------------------------------- boundaries

  /** Where the k-th chunk of an input of length n starts. */
  ghost function Bound(k: nat, num: nat, n: nat): (b: nat)
    ensures b <= n
  {
    if k * num < n then k * num else n
  }

  lemma {:induction false} BoundNext(k: nat, num: nat, n: nat)
    ensures Bound(k + 1, num, n) == if Bound(k, num, n) + num < n then Bound(k, num, n) + num else n
  {
    assert (k + 1) * num == k * num + num;
  }

  lemma {:induction false} BoundZero(num: nat, n: nat)
    ensures Bound(0, num, n) == 0
  {
  }

  /** The k-th chunk: input[k * num .. min((k + 1) * num, n)]. */
  ghost function Piece<T>(input: seq<T>, num: nat, k: nat): seq<T>
    requires num > 0
  {
    BoundNext(k, num, |input|);
    input[Bound(k, num, |input|)..Bound(k + 1, num, |input|)]
  }

  function Min(a: nat, b: nat): nat {
    if a < b then a else b
  }

  // ---------------------------------------------------------------- the shared pull

  /** The pull and the state that the inner sequence shares with the loop. */
  class Chunker<T> {
    const input: seq<T>
    const num: nat
    var pos: nat            // elements pulled so far
    var left: nat           // what the countdown still allows
    var first: Option<T>    // the element peeked at to start the chunk
    ghost var start: nat    // where the chunk starts
    ghost var drawn: nat    // how much of it has been handed out

    /** The rest of the chunk is still to come from the pull, except for its first element. */
    ghost predicate Inside()
      reads this
    {
      && num > 0 && start < |input| && first == Some(input[start])
      && drawn <= Min(num, |input| - start)
      && if drawn == 0 then pos == start + 1 && left == num
         else pos == start + drawn && left <= num - drawn && (left < num - drawn ==> pos == |input|)
    }

    /** Everything of the chunk that has not been handed out yet. */
    ghost function Rest(): seq<T>
      reads this
      requires Inside()
    {
      input[start + drawn..start + Min(num, |input| - start)]
    }

    constructor (input: seq<T>, num: nat)
      ensures this.input == input && this.num == num && pos == 0
    {
      this.input, this.num, pos, left, first, start, drawn := input, num, 0, 0, None, 0, 0;
    }

    method Next() returns (r: Option<T>)
      requires pos <= |input|
      modifies `pos
      ensures if old(pos) < |input| then r == Some(input[old(pos)]) && pos == old(pos) + 1
              else r == None && pos == old(pos)
    {
      if pos == |input| {
        return None;
      }
      pos := pos + 1;
      r := Some(input[pos - 1]);
    }

    /** Starts a chunk, if there is an element for it. */
    method Peek() returns (ok: bool)
      requires pos <= |input| && num > 0
      modifies this
      ensures ok <==> old(pos) < |input|
      ensures ok ==> Inside() && start == old(pos) && drawn == 0
      ensures !ok ==> pos == old(pos)
    {
      start, drawn := pos, 0;
      first := Next();
      left := num;
      ok := first.Some?;
    }

    method Take() returns (r: Option<T>)
      requires Inside()
      modifies `pos, `left, `drawn
      ensures Inside()
      ensures if old(Rest()) == [] then r == None && Rest() == []
              else r == Some(old(Rest())[0]) && Rest() == old(Rest())[1..]
    {
      if left == 0 {
        return None;
      }
      left := left - 1;
      if left == num - 1 {
        drawn := 1;
        return first;
      }
      r := Next();
      if r.Some? {
        drawn := drawn + 1;
      }
    }

    /** A consumer of the inner sequence that wants at most w elements. */
    method Draw(w: nat) returns (out: seq<T>)
      requires Inside()
      modifies `pos, `left, `drawn
      ensures Inside()
      ensures out + Rest() == old(Rest()) && |out| == Min(w, |old(Rest())|)
    {
      hide Inside, Rest;
      ghost var all := Rest();
      out := [];
      while |out| < w
        invariant Inside() && out + Rest() == all && |out| <= w
      {
        ghost var rest := Rest();
        var r := Take();
        if r.None? {
          assert out == all;
          return;
        }
        assert rest == [r.value] + Rest();
        out := out + [r.value];
      }
    }

    /** What the consumer left is skipped. */
    method Skip()
      requires Inside()
      modifies `pos, `left, `drawn
      ensures pos == start + Min(num, |input| - start)
    {
      var r := Take();
      while r.Some?
        invariant Inside() && (r.None? ==> Rest() == [])
        decreases |Rest()| + if r.Some? then 1 else 0
      {
        r := Take();
      }
    }
  }

  /** What a consumer that wants w elements gets of the k-th chunk: the front of input[k * num .. (k + 1) * num], which
      is not empty. */
  ghost predicate IsDraw<T>(input: seq<T>, num: nat, k: nat, w: nat, got: seq<T>)
    requires num > 0
  {
    Piece(input, num, k) != [] && got == Piece(input, num, k)[..Min(w, |Piece(input, num, k)|)]
  }

  /** The loop, with a consumer that draws up to wants(k) elements of the k-th chunk and breaks off in chunk `stop`.
      Every chunk starts at its own boundary however little was drawn before, and the loop ends only at the break or
      with the input. */
  method Chunk<T>(input: seq<T>, num: int, wants: nat -> nat, stop: nat) returns (chunks: seq<seq<T>>, pulled: nat)
    ensures num <= 0 ==> chunks == [] && pulled == 0
    ensures num > 0 ==> forall k :: 0 <= k < |chunks| ==> IsDraw(input, num, k, wants(k), chunks[k])
    ensures num > 0 ==> |chunks| <= stop + 1 && (|chunks| == stop + 1 || Bound(|chunks|, num, |input|) == |input|)
    ensures num > 0 ==> Bound(|chunks|, num, |input|) >= pulled
  {
    hide Bound, Piece;
    chunks, pulled := [], 0;
    if num <= 0 {
      return;
    }
    var c := new Chunker(input, num);
    BoundZero(num, |input|);
    while true
      invariant c.pos == Bound(|chunks|, num, |input|) && |chunks| <= stop
      invariant forall k :: 0 <= k < |chunks| ==> IsDraw(input, num, k, wants(k), chunks[k])
      decreases stop - |chunks|
    {
      PieceAt(input, num, |chunks|);
      var ok := c.Peek();
      if !ok {
        pulled := c.pos;
        return;
      }
      assert c.Rest() == Piece(input, num, |chunks|);
      var got := c.Draw(wants(|chunks|));
      pulled := c.pos;
      assert IsDraw(input, num, |chunks|, wants(|chunks|), got);
      chunks := chunks + [got];
      if |chunks| == stop + 1 {
        return;
      }
      c.Skip();
    }
  }

  lemma {:induction false} PieceAt<T>(input: seq<T>, num: nat, k: nat)
    requires num > 0
    ensures var b := Bound(k, num, |input|);
            && Bound(k + 1, num, |input|) == b + Min(num, |input| - b)
            && Piece(input, num, k) == input[b..b + Min(num, |input| - b)]
  {
    BoundNext(k, num, |input|);
  }

  // ---------------------------------------------------------------- the chunks put together

  ghost function Concat<T>(chunks: seq<seq<T>>): seq<T> {
    if chunks == [] then [] else Concat(chunks[..|chunks| - 1]) + chunks[|chunks| - 1]
  }

  /** Chunks that were drawn to the end make up the input, up to where the last of them ends. */
  lemma {:induction false} DrainedChunksAreTheInput<T>(input: seq<T>, num: nat, wants: nat -> nat, chunks: seq<seq<T>>)
    requires num > 0 && forall k :: 0 <= k < |chunks| ==> wants(k) >= num && IsDraw(input, num, k, wants(k), chunks[k])
    ensures Concat(chunks) == input[..Bound(|chunks|, num, |input|)]
  {
    hide Bound, Piece;
    if chunks == [] {
      BoundZero(num, |input|);
    } else {
      var k := |chunks| - 1;
      var most := chunks[..k];
      DrainedChunksAreTheInput(input, num, wants, most);
      PieceAt(input, num, k);
      assert chunks[k] == Piece(input, num, k);
    }
  }
}
