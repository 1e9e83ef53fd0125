// The alliance tag table and the role-list difference used by the
// role-change handler. Roles are identified by their names.

module Roles {

  type RoleName = string

  /** The fixed table from alliance role name to the tag prepended to nicknames. */
  const AllianceTags: map<RoleName, string> := map[
    "\U{1F3F0}MOB" := "[MOB]",
    "\U{1F3F0}MOS" := "[MOS]",
    "\U{1F3F0}KAT" := "[KAT]",
    "\U{1F3F0}TAN" := "[TAN]",
    "\U{1F3F0}SHH" := "[SHH]"
  ]

  /**
   * The table has five entries, and each alliance role's name is the castle
   * emoji followed by the three letters that its tag wraps in brackets.
   */
  lemma AllianceTagsShape()
    ensures AllianceTags.Keys == {"\U{1F3F0}MOB", "\U{1F3F0}MOS", "\U{1F3F0}KAT", "\U{1F3F0}TAN", "\U{1F3F0}SHH"}
    ensures forall r :: r in AllianceTags ==>
              |r| == 4 && r[0] == '\U{1F3F0}' && AllianceTags[r] == "[" + r[1..] + "]"
  {
    forall r | r in AllianceTags
      ensures |r| == 4 && r[0] == '\U{1F3F0}' && AllianceTags[r] == "[" + r[1..] + "]"
    {
      if r == "\U{1F3F0}MOB" {
        assert r[1..] == "MOB";
      } else if r == "\U{1F3F0}MOS" {
        assert r[1..] == "MOS";
      } else if r == "\U{1F3F0}KAT" {
        assert r[1..] == "KAT";
      } else if r == "\U{1F3F0}TAN" {
        assert r[1..] == "TAN";
      } else {
        assert r[1..] == "SHH";
      }
    }
  }

  /** Every tag is five characters long and no two roles share a tag. */
  lemma TagsDistinct(r1: RoleName, r2: RoleName)
    requires r1 in AllianceTags && r2 in AllianceTags
    ensures |AllianceTags[r1]| == 5
    ensures AllianceTags[r1] == AllianceTags[r2] ==> r1 == r2
  {
  }

  /** `[role for role in xs if role not in ys]`. */
  function RoleDiff(xs: seq<RoleName>, ys: seq<RoleName>): (diff: seq<RoleName>)
    ensures |diff| <= |xs|
  {
    if xs == [] then []
    else if xs[0] in ys then RoleDiff(xs[1..], ys)
    else [xs[0]] + RoleDiff(xs[1..], ys)
  }

  /**
   * The difference holds exactly the roles of `xs` absent from `ys`, each as
   * often as it occurs in `xs`.
   */
  lemma {:induction false} RoleDiffContents(xs: seq<RoleName>, ys: seq<RoleName>)
    ensures forall r :: r in RoleDiff(xs, ys) <==> r in xs && r !in ys
    ensures forall r :: multiset(RoleDiff(xs, ys))[r] == if r in ys then 0 else multiset(xs)[r]
  {
    if xs != [] {
      RoleDiffContents(xs[1..], ys);
      assert xs == [xs[0]] + xs[1..];
    }
  }

  /** `a` is `b` with some elements dropped, the rest kept in `b`'s order. */
  ghost predicate IsSubsequence(a: seq<RoleName>, b: seq<RoleName>)
    decreases |b|
  {
    if a == [] then true
    else if b == [] then false
    else (a[0] == b[0] && IsSubsequence(a[1..], b[1..])) || IsSubsequence(a, b[1..])
  }

  /** The difference keeps the order of the list it is taken from. */
  lemma {:induction false} RoleDiffKeepsOrder(xs: seq<RoleName>, ys: seq<RoleName>)
    ensures IsSubsequence(RoleDiff(xs, ys), xs)
  {
    if xs != [] {
      RoleDiffKeepsOrder(xs[1..], ys);
    }
  }

  /**
   * The added and removed roles of one update never share a role, and
   * both are empty when the two lists hold the same roles, in whatever order.
   */
  lemma RoleChanges(before: seq<RoleName>, after: seq<RoleName>)
    ensures forall r :: r in RoleDiff(after, before) ==> r !in RoleDiff(before, after)
    ensures (forall r :: r in before <==> r in after) ==>
              RoleDiff(after, before) == [] && RoleDiff(before, after) == []
  {
    RoleDiffContents(after, before);
    RoleDiffContents(before, after);
    var added, removed := RoleDiff(after, before), RoleDiff(before, after);
    if added != [] {
      assert added[0] in added;
    }
    if removed != [] {
      assert removed[0] in removed;
    }
  }
}
