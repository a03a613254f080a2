// The buffers of the fixed-lag smoother
// (scripts/localization/restricted_fov/tools/sliding_window_localizer.py): four lists kept in
// step, the oldest frame dropped, the oldest pose never moved.

module SmootherWindow {
  import opened Smoother

  datatype Frame<Pose, Move> = Frame(measured: Pose, info: Block, move: Move)

  // The last k elements.
  function Last<T>(s: seq<T>, k: nat): (r: seq<T>)
    ensures |r| == if |s| <= k then |s| else k
    ensures forall i :: 0 <= i < |r| ==> r[i] == s[|s| - |r| + i]
  {
    if |s| <= k then s else s[|s| - k..]
  }

  // scale * (H + H') / 2
  method Symmetrised(h: Block, scale: real) returns (s: Block)
    requires IsBlock(h)
    ensures IsBlock(s) && IsSymmetric(s)
    ensures forall i, j :: 0 <= i < B && 0 <= j < B ==> s[i][j] == scale * (h[i][j] + h[j][i]) * 0.5
  {
    s := seq(B, i requires 0 <= i < B => seq(B, j requires 0 <= j < B => scale * (h[i][j] + h[j][i]) * 0.5));
    forall i, j | 0 <= i < B && 0 <= j < B
      ensures s[i][j] == s[j][i]
    {
      assert h[i][j] + h[j][i] == h[j][i] + h[i][j];
    }
  }

  class FrameWindow<Pose, Move> {
    const size: nat
    const scale: real
    var poses: seq<Pose>
    var measured: seq<Pose>
    var info: seq<Block>
    var moves: seq<Move>
    // Every frame ever pushed, with the information as stored.
    ghost var history: seq<Frame<Pose, Move>>

    ghost predicate Valid()
      reads this
    {
      && size >= 1
      && (forall i :: 0 <= i < |info| ==> IsBlock(info[i]) && IsSymmetric(info[i]))
      && |poses| == |measured| == |info| == |moves| == |Last(history, size)|
      && (forall i :: 0 <= i < |poses| ==> Last(history, size)[i] == Frame(measured[i], info[i], moves[i]))
    }

    constructor (size: nat, scale: real)
      requires size >= 1
      ensures Valid() && history == [] && this.size == size && this.scale == scale
    {
      this.size, this.scale := size, scale;
      poses, measured, info, moves, history := [], [], [], [], [];
    }

    // A new frame enters with the matcher's pose as its estimate; past the window's size the
    // oldest one leaves every list.
    method Push(pose: Pose, h: Block, move: Move)
      requires Valid() && IsBlock(h)
      modifies this
      ensures Valid()
      ensures poses == Last(old(poses) + [pose], size)
      ensures |history| == |old(history)| + 1 && history[..|old(history)|] == old(history)
      ensures var f := history[|old(history)|];
              f.measured == pose && f.move == move && IsBlock(f.info)
              && forall i, j :: 0 <= i < B && 0 <= j < B ==> f.info[i][j] == scale * (h[i][j] + h[j][i]) * 0.5
    {
      var s := Symmetrised(h, scale);
      poses := poses + [pose];
      measured := measured + [pose];
      info := info + [s];
      moves := moves + [move];
      history := history + [Frame(pose, s, move)];
      if |poses| > size {
        poses, measured, info, moves := poses[1..], measured[1..], info[1..], moves[1..];
      }
    }

    // Every pose but the oldest moves by its six entries of the increment.
    method Retract(dx: seq<real>, retract: (Pose, seq<real>) -> Pose)
      requires Valid() && |poses| >= 1 && |dx| == B * (|poses| - 1)
      modifies this`poses
      ensures Valid() && |poses| == |old(poses)| && poses[0] == old(poses)[0]
      ensures forall k :: 1 <= k < |poses| ==> poses[k] == retract(old(poses)[k], dx[B * (k - 1)..B * k])
    {
      for k := 1 to |poses|
        invariant |poses| == |old(poses)| && poses[0] == old(poses)[0]
        invariant forall j :: 1 <= j < k ==> poses[j] == retract(old(poses)[j], dx[B * (j - 1)..B * j])
        invariant forall j :: k <= j < |poses| ==> poses[j] == old(poses)[j]
      {
        poses := poses[k := retract(poses[k], dx[B * (k - 1)..B * k])];
      }
    }
  }
}
