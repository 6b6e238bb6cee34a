/** A model of the append-only bone chain kept by `Skeleton`.

    Bones live in an arena outside the skeleton. Each bone has at most one
    child link; a bone that is absent from the arena's map has no child.
    The skeleton remembers the first bone appended (the root) and the most
    recently appended one (the tail). A bone pointer that may be null is an
    `Option<BoneId>`.
 */
module Kinematics {

  /** A possibly-null reference. */
  datatype Option<+T> = None | Some(value: T)

  /** The one way appending can go wrong: the tail pointer is null while the
      root is not, so linking the new bone would dereference null. */
  datatype Error = NullTail

  datatype Result<+T> = Ok(value: T) | Err(error: Error)

  type BoneId = nat

  /** The child link of every bone; bones missing from the map have none. */
  type Arena = map<BoneId, Option<BoneId>>

  datatype Skeleton = Skeleton(root: Option<BoneId>, tail: Option<BoneId>, links: Arena)

  /** A skeleton with no bones over a given arena. */
  function Empty(links: Arena): Skeleton
  {
    Skeleton(None, None, links)
  }

  /** The bone's current child, as read by `Bone::child`. */
  function Child(links: Arena, b: BoneId): Option<BoneId>
  {
    if b in links then links[b] else None
  }

  /** `Bone::add_child`: overwrite the single child link of `b`. */
  function SetChild(links: Arena, b: BoneId, c: Option<BoneId>): (r: Arena)
    ensures Child(r, b) == c
    ensures forall o :: o != b ==> Child(r, o) == Child(links, o)
  {
    links[b := c]
  }

  /** `Skeleton::add_bone`. On an empty skeleton the bone becomes both root
      and tail; otherwise it is linked below the tail and becomes the tail. */
  function AddBone(s: Skeleton, bone: Option<BoneId>): (r: Result<Skeleton>)
    ensures s.root.None? ==>
              r.Ok? && r.value.root == bone && r.value.tail == bone && r.value.links == s.links
    ensures s.root.Some? && s.tail.None? ==> r == Err(NullTail)
    ensures s.root.Some? && s.tail.Some? ==>
              && r.Ok?
              && r.value.root == s.root
              && r.value.tail == bone
              && Child(r.value.links, s.tail.value) == bone
              && forall b :: b != s.tail.value ==> Child(r.value.links, b) == Child(s.links, b)
  {
    if s.root.None? then Ok(Skeleton(bone, bone, s.links))
    else if s.tail.None? then Err(NullTail)
    else Ok(Skeleton(s.root, bone, SetChild(s.links, s.tail.value, bone)))
  }

  /** Appends the bones one after another, stopping at the first error. */
  function AddAll(s: Skeleton, bones: seq<BoneId>): Result<Skeleton>
    decreases |bones|
  {
    if bones == [] then Ok(s)
    else
      match AddBone(s, Some(bones[0]))
      case Err(e) => Err(e)
      case Ok(s1) => AddAll(s1, bones[1..])
  }

  /** The bone reached from `b` after `k` child steps, or None once the walk
      has met a null link. */
  function Follow(links: Arena, b: BoneId, k: nat): Option<BoneId>
  {
    if k == 0 then Some(b)
    else
      match Follow(links, b, k - 1)
      case None => None
      case Some(p) => Child(links, p)
  }

  /** No bone is reached twice when walking child links from `b`. */
  ghost predicate Acyclic(links: Arena, b: BoneId)
  {
    forall j: nat, k: nat :: j < k && Follow(links, b, k).Some? ==> Follow(links, b, j) != Follow(links, b, k)
  }

  /** The condition under which `all_bones` terminates. */
  ghost predicate Traversable(s: Skeleton)
  {
    s.root.None? || Acyclic(s.links, s.root.value)
  }

  /** `r` is the whole chain hanging from `b`: it starts at `b`, each bone's
      child is the next one, and the last bone has no child. */
  ghost predicate IsChain(links: Arena, b: BoneId, r: seq<BoneId>)
  {
    && |r| >= 1
    && r[0] == b
    && (forall i :: 0 <= i < |r| - 1 ==> Child(links, r[i]) == Some(r[i + 1]))
    && Child(links, r[|r| - 1]) == None
  }

  /** `r` lists every bone of the skeleton, root first, in chain order. */
  ghost predicate Lists(s: Skeleton, r: seq<BoneId>)
  {
    if s.root.None? then r == [] else IsChain(s.links, s.root.value, r)
  }

  /** The skeleton was built by appending exactly `bs`: root is the first,
      tail the last, and the links chain them in order. */
  ghost predicate Tracks(s: Skeleton, bs: seq<BoneId>)
  {
    if bs == [] then s.root.None? && s.tail.None?
    else s.root == Some(bs[0]) && s.tail == Some(bs[|bs| - 1]) && IsChain(s.links, bs[0], bs)
  }

  ghost predicate Distinct(xs: seq<BoneId>)
  {
    forall i, j :: 0 <= i < j < |xs| ==> xs[i] != xs[j]
  }

  /** A sequence without repeats drawn from `keys` is no longer than `keys`. */
  lemma {:induction false} DistinctBound(xs: seq<BoneId>, keys: set<BoneId>)
    requires forall i :: 0 <= i < |xs| ==> xs[i] in keys
    requires Distinct(xs)
    ensures |xs| <= |keys|
  {
    if |xs| > 0 {
      var rest := xs[1..];
      forall i | 0 <= i < |rest|
        ensures rest[i] in keys - {xs[0]}
      {
        assert rest[i] == xs[i + 1];
      }
      DistinctBound(rest, keys - {xs[0]});
    }
  }

  /** `Skeleton::all_bones`: the do-while walk from the root, collecting
      every bone until a null child link. */
  method AllBones(s: Skeleton) returns (result: seq<BoneId>)
    requires Traversable(s)
    ensures Lists(s, result)
    ensures s.root.None? <==> result == []
    ensures s.root.Some? ==> result[0] == s.root.value
  {
    result := [];
    if s.root.None? {
      return;
    }
    var root := s.root.value;
    var bone := root;
    while true
      invariant Follow(s.links, root, |result|) == Some(bone)
      invariant forall i :: 0 <= i < |result| ==> Follow(s.links, root, i) == Some(result[i])
      invariant forall i :: 0 <= i < |result| ==> result[i] in s.links
      invariant |result| <= |s.links|
      decreases |s.links| - |result|
    {
      result := result + [bone];
      var next := Child(s.links, bone);
      if next.None? {
        forall i | 0 <= i < |result| - 1
          ensures Child(s.links, result[i]) == Some(result[i + 1])
        {
          assert Follow(s.links, root, i + 1) == Some(result[i + 1]);
        }
        return;
      }
      assert bone in s.links;
      bone := next.value;
      assert Follow(s.links, root, |result|) == Some(bone);
      forall i, j | 0 <= i < j < |result|
        ensures result[i] != result[j]
      {
        assert Follow(s.links, root, j) == Some(result[j]);
      }
      DistinctBound(result, s.links.Keys);
    }
  }

  lemma {:induction false} ChainFollowAt(links: Arena, b: BoneId, r: seq<BoneId>, i: nat)
    requires IsChain(links, b, r)
    requires i < |r|
    ensures Follow(links, b, i) == Some(r[i])
  {
    if i > 0 {
      ChainFollowAt(links, b, r, i - 1);
    }
  }

  /** Walking child links from `b` visits exactly the chain, then stops. */
  lemma ChainFollow(links: Arena, b: BoneId, r: seq<BoneId>)
    requires IsChain(links, b, r)
    ensures forall i :: 0 <= i < |r| ==> Follow(links, b, i) == Some(r[i])
    ensures Follow(links, b, |r|) == None
  {
    forall i | 0 <= i < |r|
      ensures Follow(links, b, i) == Some(r[i])
    {
      ChainFollowAt(links, b, r, i);
    }
  }

  /** A chain is determined by its first bone, so `all_bones` has one
      possible answer. */
  lemma ChainUnique(links: Arena, b: BoneId, r1: seq<BoneId>, r2: seq<BoneId>)
    requires IsChain(links, b, r1)
    requires IsChain(links, b, r2)
    ensures r1 == r2
  {
    ChainFollow(links, b, r1);
    ChainFollow(links, b, r2);
  }

  lemma {:induction false} ChainShift(links: Arena, b: BoneId, r: seq<BoneId>, j: nat, k: nat, d: nat)
    requires IsChain(links, b, r)
    requires j < k && k + d < |r|
    ensures r[j] == r[k] ==> r[j + d] == r[k + d]
  {
    if d > 0 {
      ChainShift(links, b, r, j, k, d - 1);
    }
  }

  /** No bone occurs twice on a chain. */
  lemma ChainDistinct(links: Arena, b: BoneId, r: seq<BoneId>)
    requires IsChain(links, b, r)
    ensures Distinct(r)
  {
    forall j, k | 0 <= j < k < |r|
      ensures r[j] != r[k]
    {
      var d := |r| - 1 - k;
      ChainShift(links, b, r, j, k, d);
      assert Child(links, r[j + d]) == Some(r[j + d + 1]);
    }
  }

  lemma {:induction false} FollowAfterEnd(links: Arena, b: BoneId, n: nat, k: nat)
    requires Follow(links, b, n) == None
    requires n <= k
    ensures Follow(links, b, k) == None
  {
    if n < k {
      FollowAfterEnd(links, b, n, k - 1);
    }
  }

  /** Converse of termination: if a finite chain hangs from `b`, the walk
      from `b` never revisits a bone. So `Traversable` asks for nothing more
      than the walk ending. */
  lemma ChainAcyclic(links: Arena, b: BoneId, r: seq<BoneId>)
    requires IsChain(links, b, r)
    ensures Acyclic(links, b)
  {
    ChainFollow(links, b, r);
    ChainDistinct(links, b, r);
    forall j: nat, k: nat | j < k && Follow(links, b, k).Some?
      ensures Follow(links, b, j) != Follow(links, b, k)
    {
      if |r| <= k {
        FollowAfterEnd(links, b, |r|, k);
      }
    }
  }

  /** A skeleton built by appends is traversable, and `all_bones` can only
      return the appended bones. */
  lemma TracksLists(s: Skeleton, bs: seq<BoneId>)
    requires Tracks(s, bs)
    ensures Traversable(s)
    ensures Lists(s, bs)
    ensures forall r :: Lists(s, r) ==> r == bs
  {
    if bs != [] {
      ChainAcyclic(s.links, bs[0], bs);
      forall r | Lists(s, r)
        ensures r == bs
      {
        ChainUnique(s.links, bs[0], r, bs);
      }
    }
  }

  /** Appending a fresh, childless bone to a well-built skeleton extends its
      chain by exactly that bone. */
  lemma AddBoneExtends(s: Skeleton, bs: seq<BoneId>, b: BoneId)
    requires Tracks(s, bs)
    requires b !in bs
    requires Child(s.links, b) == None
    ensures AddBone(s, Some(b)).Ok?
    ensures Tracks(AddBone(s, Some(b)).value, bs + [b])
  {
  }

  /** `all_bones` after one more append is the previous answer with the new
      bone at the end: one longer. */
  lemma AllBonesGrowsByOne(s: Skeleton, bs: seq<BoneId>, b: BoneId, before: seq<BoneId>, after: seq<BoneId>)
    requires Tracks(s, bs)
    requires b !in bs
    requires Child(s.links, b) == None
    requires Lists(s, before)
    requires AddBone(s, Some(b)).Ok? && Lists(AddBone(s, Some(b)).value, after)
    ensures after == before + [b]
    ensures |after| == |before| + 1
  {
    TracksLists(s, bs);
    AddBoneExtends(s, bs, b);
    TracksLists(AddBone(s, Some(b)).value, bs + [b]);
  }

  /** Appending distinct childless bones one by one keeps the chain equal to
      everything appended so far. */
  lemma {:induction false} AddAllTracks(s: Skeleton, bs: seq<BoneId>, bones: seq<BoneId>)
    requires Tracks(s, bs)
    requires Distinct(bs + bones)
    requires forall i :: 0 <= i < |bones| ==> Child(s.links, bones[i]) == None
    ensures AddAll(s, bones).Ok?
    ensures Tracks(AddAll(s, bones).value, bs + bones)
    decreases |bones|
  {
    if bones != [] {
      var b := bones[0];
      var all := bs + bones;
      assert b !in bs by {
        forall i | 0 <= i < |bs|
          ensures bs[i] != b
        {
          assert all[i] == bs[i] && all[|bs|] == b;
        }
      }
      AddBoneExtends(s, bs, b);
      var s1 := AddBone(s, Some(b)).value;
      var rest := bones[1..];
      assert (bs + [b]) + rest == all;
      forall i | 0 <= i < |rest|
        ensures Child(s1.links, rest[i]) == None
      {
        assert rest[i] == bones[i + 1];
        assert all[|bs| + i + 1] == rest[i];
        if bs != [] {
          assert all[|bs| - 1] == bs[|bs| - 1];
        }
      }
      AddAllTracks(s1, bs + [b], rest);
    }
  }

  /** From an empty skeleton, appending `bones` (distinct, none with a child)
      makes `all_bones` return exactly `bones`, in append order, with the
      last appended bone as the tail. */
  lemma AppendOrder(links: Arena, bones: seq<BoneId>)
    requires Distinct(bones)
    requires forall i :: 0 <= i < |bones| ==> Child(links, bones[i]) == None
    ensures AddAll(Empty(links), bones).Ok?
    ensures Traversable(AddAll(Empty(links), bones).value)
    ensures forall r :: Lists(AddAll(Empty(links), bones).value, r) <==> r == bones
    ensures bones != [] ==> AddAll(Empty(links), bones).value.tail == Some(bones[|bones| - 1])
  {
    assert [] + bones == bones;
    AddAllTracks(Empty(links), [], bones);
    var s := AddAll(Empty(links), bones).value;
    TracksLists(s, bones);
    forall r
      ensures Lists(s, r) <==> r == bones
    {
    }
  }

  /** Appending a null bone to a non-empty skeleton keeps the chain but
      nulls the tail, after which the next append fails. */
  lemma NullBoneStrandsTail(s: Skeleton, bs: seq<BoneId>, b: BoneId)
    requires Tracks(s, bs)
    requires bs != []
    ensures AddBone(s, None).Ok?
    ensures AddBone(s, None).value.tail == None
    ensures Lists(AddBone(s, None).value, bs)
    ensures AddBone(AddBone(s, None).value, Some(b)) == Err(NullTail)
  {
  }
}
