/**
 * split_string of the RKNN2 wrapper, which cuts a model's output-name list at a separator.
 */
module Rknn2Strings {
  import opened Wrappers

  /** c occurs in s at index i. */
  predicate Occurs(s: string, c: string, i: int)
  {
    0 <= i && i + |c| <= |s| && s[i..i + |c|] == c
  }

  /** std::string::find(c, from): the first occurrence of c at or after from; None stands for npos. */
  function Find(s: string, c: string, from: nat): (r: Option<nat>)
    decreases |s| - from
    ensures r.Some? ==> from <= r.value && Occurs(s, c, r.value)
    ensures r.Some? ==> forall i | from <= i < r.value :: !Occurs(s, c, i)
    ensures r.None? ==> forall i | from <= i :: !Occurs(s, c, i)
  {
    if from + |c| > |s| then None
    else if Occurs(s, c, from) then Some(from)
    else Find(s, c, from + 1)
  }

  /**
   * The fields of s from index from on: the text up to each leftmost occurrence of c, and the
   * text after the last one, empty or not.
   */
  function Fields(s: string, c: string, from: nat): (r: seq<string>)
    requires |c| > 0 && from <= |s|
    decreases |s| - from
    ensures |r| >= 1
  {
    match Find(s, c, from)
    case None => [s[from..]]
    case Some(p) => [s[from..p]] + Fields(s, c, p + |c|)
  }

  /** What split_string returns: the fields of s, without the last one when it is empty. */
  function Pieces(s: string, c: string): seq<string>
    requires |c| > 0
  {
    var f := Fields(s, c, 0);
    if f[|f| - 1] == [] then f[..|f| - 1] else f
  }

  /** The pieces written back with c between each two of them. */
  function Join(v: seq<string>, c: string): string
  {
    if |v| == 0 then []
    else if |v| == 1 then v[0]
    else v[0] + c + Join(v[1..], c)
  }

  /** split_string: the loop pushing s[pos1, pos2) for every occurrence pos2 of c, then the non-empty tail. */
  method SplitString(s: string, c: string) returns (v: seq<string>)
    requires |c| > 0
    ensures v == Pieces(s, c)
  {
    v := [];
    var pos2 := Find(s, c, 0);
    var pos1 := 0;
    while pos2.Some?
      invariant 0 <= pos1 <= |s|
      invariant pos2 == Find(s, c, pos1)
      invariant v + Fields(s, c, pos1) == Fields(s, c, 0)
      decreases |s| - pos1
    {
      FieldsAt(s, c, pos1, pos2.value, v);
      v := v + [s[pos1..pos2.value]];
      pos1 := pos2.value + |c|;
      pos2 := Find(s, c, pos1);
    }
    PiecesEnd(s, c, pos1, v);
    if pos1 != |s| {
      v := v + [s[pos1..]];
    }
  }

  /** Before an occurrence p of c, the fields are s[from..p] followed by those after the occurrence. */
  lemma FieldsAt(s: string, c: string, from: nat, p: nat, v: seq<string>)
    requires |c| > 0 && from <= |s| && Find(s, c, from) == Some(p)
    ensures from <= p && p + |c| <= |s| && s[p..p + |c|] == c
    ensures Fields(s, c, from) == [s[from..p]] + Fields(s, c, p + |c|)
    ensures v + Fields(s, c, from) == (v + [s[from..p]]) + Fields(s, c, p + |c|)
  {
  }

  /**
   * Past the last occurrence of c the only field left is the rest of s, so the pieces are the
   * fields gathered before it, followed by that rest unless it is empty.
   */
  lemma PiecesEnd(s: string, c: string, from: nat, v: seq<string>)
    requires |c| > 0 && from <= |s| && Find(s, c, from).None?
    requires v + Fields(s, c, from) == Fields(s, c, 0)
    ensures Pieces(s, c) == if from == |s| then v else v + [s[from..]]
  {
    assert Fields(s, c, from) == [s[from..]];
    assert (v + [s[from..]])[..|v|] == v;
  }

  /** With an empty separator find returns its start position, so pos1 would never advance. */
  lemma EmptySeparatorStalls(s: string, from: nat)
    requires from <= |s|
    ensures Find(s, [], from) == Some(from)
  {
    assert Occurs(s, [], from);
  }

  /** Joining the fields with c gives back the text they were cut from. */
  lemma {:induction false} FieldsJoin(s: string, c: string, from: nat)
    requires |c| > 0 && from <= |s|
    decreases |s| - from
    ensures Join(Fields(s, c, from), c) == s[from..]
  {
    match Find(s, c, from)
    case None =>
    case Some(p) =>
      FieldsAt(s, c, from, p, []);
      FieldsJoin(s, c, p + |c|);
      JoinCons(s[from..p], Fields(s, c, p + |c|), c);
      SliceSplit(s, from, p, p + |c|);
  }

  /** Joining x in front of a non-empty list puts c between x and the rest. */
  lemma JoinCons(x: string, rest: seq<string>, c: string)
    requires |rest| >= 1
    ensures Join([x] + rest, c) == x + c + Join(rest, c)
  {
    assert ([x] + rest)[1..] == rest;
  }

  /** s from index from on is cut at p and q into three consecutive parts. */
  lemma SliceSplit(s: string, from: nat, p: nat, q: nat)
    requires from <= p <= q <= |s|
    ensures s[from..] == s[from..p] + s[p..q] + s[q..]
  {
  }

  /** No field contains the separator. */
  lemma {:induction false} FieldsFree(s: string, c: string, from: nat)
    requires |c| > 0 && from <= |s|
    decreases |s| - from
    ensures forall k, i | 0 <= k < |Fields(s, c, from)| :: !Occurs(Fields(s, c, from)[k], c, i)
  {
    match Find(s, c, from)
    case None =>
      assert Fields(s, c, from) == [s[from..]];
      assert s[from..] == s[from..|s|];
      SliceFree(s, c, from, |s|);
    case Some(p) =>
      FieldsAt(s, c, from, p, []);
      FieldsFree(s, c, p + |c|);
      SliceFree(s, c, from, p);
      var f := Fields(s, c, from);
      forall k, i | 0 <= k < |f|
        ensures !Occurs(f[k], c, i)
      {
        if k > 0 {
          assert f[k] == Fields(s, c, p + |c|)[k - 1];
        }
      }
  }

  /** A slice of s holds no occurrence of c when none starts inside it in s. */
  lemma SliceFree(s: string, c: string, a: nat, b: nat)
    requires |c| > 0 && a <= b <= |s| && forall i | a <= i < b :: !Occurs(s, c, i)
    ensures forall i :: !Occurs(s[a..b], c, i)
  {
    forall i | Occurs(s[a..b], c, i)
      ensures false
    {
      assert 0 <= i && i + |c| <= b - a;
      forall j | 0 <= j < |c|
        ensures s[a + i..a + i + |c|][j] == c[j]
      {
        assert s[a..b][i..i + |c|][j] == c[j];
      }
      assert s[a + i..a + i + |c|] == c;
      assert Occurs(s, c, a + i);
    }
  }

  /** split_string drops a trailing empty field: the fields ended at an occurrence of c that closes s. */
  predicate EndsAtSeparator(s: string, c: string)
    requires |c| > 0
  {
    var f := Fields(s, c, 0);
    s != [] && f[|f| - 1] == []
  }

  /** Joining the pieces gives back s, followed by the closing separator that split_string dropped. */
  lemma PiecesJoin(s: string, c: string)
    requires |c| > 0
    ensures s == Join(Pieces(s, c), c) + (if EndsAtSeparator(s, c) then c else [])
  {
    var f := Fields(s, c, 0);
    FieldsJoin(s, c, 0);
    assert s[0..] == s;
    if f[|f| - 1] == [] && |f| > 1 {
      JoinLast(f, c);
    } else if f[|f| - 1] == [] {
      assert s == [];
    }
  }

  /** Joining a list of at least two strings whose last is empty ends with c after the others. */
  lemma {:induction false} JoinLast(v: seq<string>, c: string)
    requires |v| >= 2 && v[|v| - 1] == []
    ensures Join(v, c) == Join(v[..|v| - 1], c) + c
  {
    if |v| == 2 {
      assert v[..1] == [v[0]];
    } else {
      JoinLast(v[1..], c);
      assert v[1..][..|v| - 2] == v[..|v| - 1][1..];
    }
  }

  /** Every piece split_string returns is free of the separator. */
  lemma PiecesFree(s: string, c: string)
    requires |c| > 0
    ensures forall k, i | 0 <= k < |Pieces(s, c)| :: !Occurs(Pieces(s, c)[k], c, i)
  {
    FieldsFree(s, c, 0);
  }

  /** A non-empty s without c gives [s]; an empty s gives no pieces at all. */
  lemma WholeOrNothing(s: string, c: string)
    requires |c| > 0 && forall i :: !Occurs(s, c, i)
    ensures Pieces(s, c) == if s == [] then [] else [s]
  {
    assert Find(s, c, 0).None?;
    assert s[0..] == s;
  }

  /** "a,b," splits into "a" and "b": the closing separator leaves no empty piece. */
  lemma SplitClosingSeparator()
    ensures Pieces("a,b,", ",") == ["a", "b"]
  {
    var s := "a,b,";
    assert Occurs(s, ",", 1) && Occurs(s, ",", 3);
    assert Find(s, ",", 1) == Some(1);
    assert s[0..1][0] == 'a' && s[2..3][0] == 'b';
    assert !Occurs(s, ",", 0) && !Occurs(s, ",", 2);
    assert Find(s, ",", 0) == Some(1);
    assert Find(s, ",", 3) == Some(3);
    assert Find(s, ",", 2) == Some(3);
    assert Find(s, ",", 4) == None;
    assert s[4..] == [] && s[0..1] == "a" && s[2..3] == "b";
    assert Fields(s, ",", 4) == [[]];
    assert Fields(s, ",", 2) == ["b", []];
    assert Fields(s, ",", 0) == ["a", "b", []];
  }

  /** ",,a" keeps the two empty pieces before its leading separators. */
  lemma SplitLeadingSeparators()
    ensures Pieces(",,a", ",") == ["", "", "a"]
  {
    var t := ",,a";
    assert t[2..3][0] == 'a';
    assert Occurs(t, ",", 0) && Occurs(t, ",", 1) && !Occurs(t, ",", 2);
    assert Find(t, ",", 0) == Some(0);
    assert Find(t, ",", 1) == Some(1);
    assert Find(t, ",", 2) == None;
    assert t[2..] == "a" && t[0..0] == "" && t[1..1] == "";
    assert Fields(t, ",", 2) == ["a"];
    assert Fields(t, ",", 1) == ["", "a"];
    assert Fields(t, ",", 0) == ["", "", "a"];
  }
}
