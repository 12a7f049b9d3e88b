/** The filter the delete handler applies to a blog's comments: it drops the
    target comment and its direct replies, and nothing else. */
module Cascade {
  import opened Comments

  /** A comment survives deleting `target` unless it is that comment or a direct reply to it.
      A missing `rid` never equals a target. */
  predicate Survives(c: Comment, target: string) {
    c.cid != target && c.rid != Some(target)
  }

  /** The comments of `s` that survive deleting `target`, in their original order. */
  function Prune(s: seq<Comment>, target: string): (r: seq<Comment>)
    ensures |r| <= |s|
  {
    if s == [] then []
    else (if Survives(s[0], target) then [s[0]] else []) + Prune(s[1..], target)
  }

  /** A comment is kept exactly when it was there and survives: the target and its
      direct replies are gone, everything else stays. */
  lemma {:induction false} PruneMembers(s: seq<Comment>, target: string)
    ensures forall c :: c in Prune(s, target) <==> c in s && Survives(c, target)
  {
    if s != [] {
      PruneMembers(s[1..], target);
      assert s == [s[0]] + s[1..];
    }
  }

  /** The filter removes nothing exactly when every comment survives, and then it
      returns its input; otherwise the result is strictly shorter. */
  lemma {:induction false} PruneUnchanged(s: seq<Comment>, target: string)
    ensures |Prune(s, target)| == |s| <==> forall i :: 0 <= i < |s| ==> Survives(s[i], target)
    ensures |Prune(s, target)| == |s| ==> Prune(s, target) == s
  {
    if s != [] {
      PruneUnchanged(s[1..], target);
      assert forall i :: 1 <= i < |s| ==> s[i] == s[1..][i - 1];
      assert s == [s[0]] + s[1..];
    }
  }

  /** The positions, in increasing order, of the comments of `s` from `from` on that survive. */
  function KeptFrom(s: seq<Comment>, target: string, from: nat): (idx: seq<nat>)
    ensures forall k :: 0 <= k < |idx| ==> from <= idx[k] < |s|
    ensures forall k, l :: 0 <= k < l < |idx| ==> idx[k] < idx[l]
    ensures forall i :: from <= i < |s| ==> (i in idx <==> Survives(s[i], target))
    decreases |s| - from
  {
    if from >= |s| then []
    else
      var rest := KeptFrom(s, target, from + 1);
      if Survives(s[from], target) then
        assert forall k :: 0 <= k < |[from] + rest| ==> ([from] + rest)[k] == if k == 0 then from else rest[k - 1];
        [from] + rest
      else
        rest
  }

  /** Pruning the suffix of `s` from `from` picks the comments at exactly the positions
      KeptFrom lists, in that order. */
  lemma {:induction false} PruneSelectsFrom(s: seq<Comment>, target: string, from: nat)
    requires from <= |s|
    ensures var r, idx := Prune(s[from..], target), KeptFrom(s, target, from);
      |idx| == |r| && forall k :: 0 <= k < |idx| ==> r[k] == s[idx[k]]
    decreases |s| - from
  {
    if from < |s| {
      PruneSelectsFrom(s, target, from + 1);
      assert s[from..][0] == s[from] && s[from..][1..] == s[from + 1..];
      var rest, idx := Prune(s[from + 1..], target), KeptFrom(s, target, from + 1);
      if Survives(s[from], target) {
        var r, ix := [s[from]] + rest, [from] + idx;
        assert Prune(s[from..], target) == r;
        assert KeptFrom(s, target, from) == ix;
        forall k | 0 <= k < |ix|
          ensures r[k] == s[ix[k]]
        {
          if k > 0 {
            assert r[k] == rest[k - 1] && ix[k] == idx[k - 1];
          }
        }
      } else {
        assert Prune(s[from..], target) == rest;
        assert KeptFrom(s, target, from) == idx;
      }
    }
  }

  /** The delete filter keeps order: the pruned sequence is the subsequence of `s`
      at exactly the positions whose comment survives, taken in increasing order. */
  lemma PruneSelects(s: seq<Comment>, target: string)
    ensures var r, idx := Prune(s, target), KeptFrom(s, target, 0);
      && |idx| == |r|
      && (forall k :: 0 <= k < |idx| ==> idx[k] < |s| && r[k] == s[idx[k]])
      && (forall k, l :: 0 <= k < l < |idx| ==> idx[k] < idx[l])
      && (forall i :: 0 <= i < |s| ==> (i in idx <==> Survives(s[i], target)))
  {
    PruneSelectsFrom(s, target, 0);
    assert s[0..] == s;
  }

  /** Filtering distributes over concatenation, so comments appended later stay after earlier ones. */
  lemma {:induction false} PruneAppend(a: seq<Comment>, b: seq<Comment>, target: string)
    ensures Prune(a + b, target) == Prune(a, target) + Prune(b, target)
  {
    if a == [] {
      assert a + b == b;
    } else {
      var ab := a + b;
      assert ab[0] == a[0] && ab[1..] == a[1..] + b;
      PruneAppend(a[1..], b, target);
      var head := if Survives(a[0], target) then [a[0]] else [];
      assert Prune(ab, target) == head + Prune(ab[1..], target);
      assert Prune(a, target) == head + Prune(a[1..], target);
    }
  }

  /** Deleting the same target twice removes nothing the second time. */
  lemma PruneIdempotent(s: seq<Comment>, target: string)
    ensures Prune(Prune(s, target), target) == Prune(s, target)
  {
    var r := Prune(s, target);
    PruneMembers(s, target);
    forall i | 0 <= i < |r|
      ensures Survives(r[i], target)
    {
      assert r[i] in r;
    }
    PruneUnchanged(r, target);
  }

  /** The cascade is one level deep: deleting `target` removes a direct reply to it,
      but keeps a reply to that reply. */
  lemma CascadeIsSingleLevel(s: seq<Comment>, target: string, reply: Comment, nested: Comment)
    requires reply in s && nested in s
    requires reply.rid == Some(target) && nested.rid == Some(reply.cid)
    requires reply.cid != target && nested.cid != target
    ensures reply !in Prune(s, target)
    ensures nested in Prune(s, target)
  {
    PruneMembers(s, target);
  }
}
