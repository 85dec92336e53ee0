/**
 The edit distance of common/JsonUtil.hpp: the table that getLevenshteinDist fills, and the proof that
 its last entry is the length of the shortest script of single-character edits.
*/
module Levenshtein {

  import opened Arithmetic
  import opened Wrappers

  /** The entry of the table for the prefixes `a` and `b`. */
  function Dist(a: string, b: string): nat
    decreases |a| + |b|
  {
    if a == [] then |b|
    else if b == [] then |a|
    else
      var (a', b') := (a[..|a| - 1], b[..|b| - 1]);
      if a[|a| - 1] == b[|b| - 1] then Dist(a', b')
      else 1 + Min(Min(Dist(a, b'), Dist(a', b)), Dist(a', b'))
  }

  /** Fills the table row by row. */
  method GetLevenshteinDist(string1: string, string2: string) returns (d: int)
    ensures d == Dist(string1, string2)
  {
    hide Dist;
    var n, m := |string1|, |string2|;
    var matrix := new int[n + 1, m + 1]((i, j) => 0);
    for i := 0 to n + 1
      invariant forall k, l :: 0 <= k < i && 0 <= l <= m ==> matrix[k, l] == Dist(string1[..k], string2[..l])
    {
      for j := 0 to m + 1
        invariant forall k, l :: 0 <= k < i && 0 <= l <= m ==> matrix[k, l] == Dist(string1[..k], string2[..l])
        invariant forall l :: 0 <= l < j ==> matrix[i, l] == Dist(string1[..i], string2[..l])
      {
        DistOfPrefixes(string1, string2, i, j);
        if i == 0 {
          matrix[i, j] := j;
        } else if j == 0 {
          matrix[i, j] := i;
        } else if string1[i - 1] == string2[j - 1] {
          matrix[i, j] := matrix[i - 1, j - 1];
        } else {
          var least := if matrix[i, j - 1] < matrix[i - 1, j] then matrix[i, j - 1] else matrix[i - 1, j];
          matrix[i, j] := 1 + if least < matrix[i - 1, j - 1] then least else matrix[i - 1, j - 1];
        }
      }
    }
    assert string1[..n] == string1 && string2[..m] == string2;
    d := matrix[n, m];
  }

  lemma {:induction false} DistOfPrefixes(a: string, b: string, i: nat, j: nat)
    requires i <= |a| && j <= |b|
    ensures Dist(a[..i], b[..j]) ==
            if i == 0 then j
            else if j == 0 then i
            else if a[i - 1] == b[j - 1] then Dist(a[..i - 1], b[..j - 1])
            else 1 + Min(Min(Dist(a[..i], b[..j - 1]), Dist(a[..i - 1], b[..j])), Dist(a[..i - 1], b[..j - 1]))
  {
    if i > 0 {
      assert a[..i][..i - 1] == a[..i - 1];
    }
    if j > 0 {
      assert b[..j][..j - 1] == b[..j - 1];
    }
  }

  /** Dist one character further. */
  lemma {:induction false} DistSnoc(a: string, x: char, b: string, y: char)
    ensures Dist(a + [x], b + [y]) ==
            if x == y then Dist(a, b) else 1 + Min(Min(Dist(a + [x], b), Dist(a, b + [y])), Dist(a, b))
  {
    assert (a + [x])[..|a|] == a;
    assert (b + [y])[..|b|] == b;
  }

  // ----- the distance is a metric, part one -------------------------------------------------

  lemma {:induction false} DistSymmetric(a: string, b: string)
    ensures Dist(a, b) == Dist(b, a)
    decreases |a| + |b|
  {
    if a != [] && b != [] {
      var a', b' := a[..|a| - 1], b[..|b| - 1];
      DistSymmetric(a', b');
      DistSymmetric(a, b');
      DistSymmetric(a', b);
    }
  }

  /** One character more or less at the end changes the distance by at most one. */
  lemma {:induction false} DistOneMore(a: string, b: string, x: char)
    ensures Dist(a, b + [x]) <= Dist(a, b) + 1
    ensures Dist(a, b) <= Dist(a, b + [x]) + 1
    decreases |a| + |b|
  {
    if a != [] {
      var a', y := a[..|a| - 1], a[|a| - 1];
      assert a == a' + [y];
      DistSnoc(a', y, b, x);
      DistOneMore(b, a', y);
      DistSymmetric(b, a');
      DistSymmetric(b, a);
      DistOneMore(a', b, x);
    }
  }

  /** Taking the diagonal when the characters are equal loses nothing: the entry is never larger than
      any of its three neighbours allows. */
  lemma {:induction false} DiagonalIsOptimal(a: string, x: char, b: string, y: char)
    ensures Dist(a + [x], b + [y]) <= Dist(a, b + [y]) + 1
    ensures Dist(a + [x], b + [y]) <= Dist(a + [x], b) + 1
    ensures Dist(a + [x], b + [y]) <= Dist(a, b) + (if x == y then 0 else 1)
  {
    hide Dist;
    DistSnoc(a, x, b, y);
    DistOneMore(a + [x], b, y);
    DistOneMore(b + [y], a, x);
    DistSymmetric(b + [y], a);
    DistSymmetric(b + [y], a + [x]);
  }

  // ----- edit scripts -----------------------------------------------------------------------

  /** A change of one character anywhere in a string. */
  datatype Edit = Insert(at: nat, c: char) | Delete(at: nat) | Substitute(at: nat, c: char)

  predicate Fits(e: Edit, s: string) {
    if e.Insert? then e.at <= |s| else e.at < |s|
  }

  function Apply(e: Edit, s: string): string
    requires Fits(e, s)
  {
    match e
    case Insert(at, c) => s[..at] + [c] + s[at..]
    case Delete(at) => s[..at] + s[at + 1..]
    case Substitute(at, c) => s[at := c]
  }

  /** The edits one after the other; None if one of them does not fit. */
  function ApplyAll(s: string, script: seq<Edit>): Option<string>
    decreases |script|
  {
    if script == [] then Some(s)
    else
      var n := |script| - 1;
      match ApplyAll(s, script[..n])
      case None => None
      case Some(t) => if Fits(script[n], t) then Some(Apply(script[n], t)) else None
  }

  /** `script` turns `a` into `b`. */
  predicate Turns(a: string, script: seq<Edit>, b: string) {
    ApplyAll(a, script) == Some(b)
  }

  lemma {:induction false} TurnsSnoc(a: string, script: seq<Edit>, b: string, e: Edit)
    requires Turns(a, script, b) && Fits(e, b)
    ensures Turns(a, script + [e], Apply(e, b))
  {
    assert (script + [e])[..|script|] == script;
  }

  /** A script does the same before a further character. */
  lemma {:induction false} TurnsBefore(a: string, script: seq<Edit>, b: string, x: char)
    requires Turns(a, script, b)
    ensures Turns(a + [x], script, b + [x])
    decreases |script|
  {
    hide Apply, Fits;
    if script != [] {
      var before, e := script[..|script| - 1], script[|script| - 1];
      var t := ApplyAll(a, before).value;
      TurnsBefore(a, before, t, x);
      ApplyBefore(e, t, x);
    }
  }

  lemma {:induction false} ApplyBefore(e: Edit, s: string, x: char)
    requires Fits(e, s)
    ensures Fits(e, s + [x]) && Apply(e, s + [x]) == Apply(e, s) + [x]
  {
  }

  /** A script as long as the distance. */
  function Shortest(a: string, b: string): (script: seq<Edit>)
    ensures |script| == Dist(a, b)
    decreases |a| + |b|
  {
    if a == [] && b == [] then []
    else if a == [] then Shortest(a, b[..|b| - 1]) + [Insert(|b| - 1, b[|b| - 1])]
    else if b == [] then Shortest(a[..|a| - 1], b) + [Delete(0)]
    else
      var (a', b') := (a[..|a| - 1], b[..|b| - 1]);
      if a[|a| - 1] == b[|b| - 1] then Shortest(a', b')
      else if Dist(a, b) == 1 + Dist(a, b') then Shortest(a, b') + [Insert(|b| - 1, b[|b| - 1])]
      else if Dist(a, b) == 1 + Dist(a', b) then Shortest(a', b) + [Delete(|b|)]
      else Shortest(a', b') + [Substitute(|b| - 1, b[|b| - 1])]
  }

  lemma {:induction false} InsertLast(a: string, b: string, script: seq<Edit>)
    requires b != [] && Turns(a, script, b[..|b| - 1])
    ensures Turns(a, script + [Insert(|b| - 1, b[|b| - 1])], b)
  {
    var e := Insert(|b| - 1, b[|b| - 1]);
    TurnsSnoc(a, script, b[..|b| - 1], e);
    assert Apply(e, b[..|b| - 1]) == b;
  }

  lemma {:induction false} DeleteLast(a: string, b: string, script: seq<Edit>)
    requires a != [] && Turns(a[..|a| - 1], script, b)
    ensures Turns(a, script + [Delete(|b|)], b)
  {
    var x := a[|a| - 1];
    TurnsBefore(a[..|a| - 1], script, b, x);
    assert a[..|a| - 1] + [x] == a;
    TurnsSnoc(a, script, b + [x], Delete(|b|));
    assert Apply(Delete(|b|), b + [x]) == b;
  }

  lemma {:induction false} SubstituteLast(a: string, b: string, script: seq<Edit>)
    requires a != [] && b != [] && Turns(a[..|a| - 1], script, b[..|b| - 1])
    ensures Turns(a, script + [Substitute(|b| - 1, b[|b| - 1])], b)
  {
    var x, e := a[|a| - 1], Substitute(|b| - 1, b[|b| - 1]);
    TurnsBefore(a[..|a| - 1], script, b[..|b| - 1], x);
    assert a[..|a| - 1] + [x] == a;
    TurnsSnoc(a, script, b[..|b| - 1] + [x], e);
    assert Apply(e, b[..|b| - 1] + [x]) == b;
  }

  lemma {:induction false} ShortestTurns(a: string, b: string)
    ensures Turns(a, Shortest(a, b), b)
    decreases |a| + |b|
  {
    hide Turns;
    if a == [] && b == [] {
      assert Turns(a, [], b) by { NoEdits(a); }
    } else if a == [] {
      ShortestTurns(a, b[..|b| - 1]);
      InsertLast(a, b, Shortest(a, b[..|b| - 1]));
    } else if b == [] {
      ShortestTurns(a[..|a| - 1], b);
      DeleteLast(a, b, Shortest(a[..|a| - 1], b));
    } else {
      var a', b' := a[..|a| - 1], b[..|b| - 1];
      if a[|a| - 1] == b[|b| - 1] {
        ShortestTurns(a', b');
        TurnsBefore(a', Shortest(a', b'), b', a[|a| - 1]);
        assert a' + [a[|a| - 1]] == a && b' + [b[|b| - 1]] == b;
      } else if Dist(a, b) == 1 + Dist(a, b') {
        ShortestTurns(a, b');
        InsertLast(a, b, Shortest(a, b'));
      } else if Dist(a, b) == 1 + Dist(a', b) {
        ShortestTurns(a', b);
        DeleteLast(a, b, Shortest(a', b));
      } else {
        ShortestTurns(a', b');
        SubstituteLast(a, b, Shortest(a', b'));
      }
    }
  }

  lemma {:induction false} NoEdits(a: string)
    ensures Turns(a, [], a)
  {
  }

  // ----- no script is shorter ---------------------------------------------------------------

  /** Changing the last character changes the distance by at most one. */
  lemma {:induction false} DistLastChanged(a: string, b: string, x: char, y: char)
    ensures Dist(a, b + [y]) <= Dist(a, b + [x]) + 1
    decreases |a|
  {
    if a != [] {
      var a', z := a[..|a| - 1], a[|a| - 1];
      assert a == a' + [z];
      DistSnoc(a', z, b, x);
      DistSnoc(a', z, b, y);
      DistLastChanged(a', b, x, y);
      DistOneMore(a', b, x);
      DistOneMore(b, a', z);
      DistSymmetric(b, a');
      DistSymmetric(b, a);
    }
  }

  /** Equal last characters behind a change do not make it count more. */
  lemma {:induction false} DistSuffix(a: string, b: string, c: string, w: char)
    requires forall p :: Dist(p, c) <= Dist(p, b) + 1
    requires |c| <= |b| + 1
    ensures Dist(a, c + [w]) <= Dist(a, b + [w]) + 1
    decreases |a|
  {
    if a != [] {
      var a', z := a[..|a| - 1], a[|a| - 1];
      assert a == a' + [z];
      DistSnoc(a', z, b, w);
      DistSnoc(a', z, c, w);
      DistSuffix(a', b, c, w);
      assert Dist(a, c) <= Dist(a, b) + 1 && Dist(a', c) <= Dist(a', b) + 1;
    }
  }

  /** An edit at the end of a string. */
  lemma {:induction false} ApplyLast(b: string, w: char, e: Edit)
    ensures e.Insert? && e.at == |b| + 1 ==> Fits(e, b + [w]) && Apply(e, b + [w]) == b + [w] + [e.c]
    ensures e.Delete? && e.at == |b| ==> Fits(e, b + [w]) && Apply(e, b + [w]) == b
    ensures e.Substitute? && e.at == |b| ==> Fits(e, b + [w]) && Apply(e, b + [w]) == b + [e.c]
  {
  }

  /** An edit before the end. */
  lemma {:induction false} FitsBefore(b: string, w: char, e: Edit)
    requires Fits(e, b + [w])
    ensures e.at <= |b| || (e.Insert? && e.at == |b| + 1)
    ensures e.at < |b| || (e.Insert? && e.at == |b|) ==> Fits(e, b) && |Apply(e, b)| <= |b| + 1
  {
  }

  lemma {:induction false} EmptyEdit(e: Edit)
    requires Fits(e, "")
    ensures e.Insert? && Apply(e, "") == "" + [e.c]
  {
  }

  /** One edit anywhere changes the distance to any other string by at most one. */
  lemma {:induction false} DistOneEdit(a: string, e: Edit, b: string)
    requires Fits(e, b)
    ensures Dist(a, Apply(e, b)) <= Dist(a, b) + 1
    decreases |b|
  {
    hide *;
    if b == [] {
      EmptyEdit(e);
      DistOneMore(a, b, e.c);
    } else {
      var b', w := b[..|b| - 1], b[|b| - 1];
      assert b == b' + [w];
      ApplyLast(b', w, e);
      FitsBefore(b', w, e);
      if e.Insert? && e.at == |b| {
        DistOneMore(a, b, e.c);
      } else if e.Delete? && e.at == |b'| {
        DistOneMore(a, b', w);
      } else if e.Substitute? && e.at == |b'| {
        DistLastChanged(a, b', w, e.c);
      } else {
        forall p ensures Dist(p, Apply(e, b')) <= Dist(p, b') + 1 {
          DistOneEdit(p, e, b');
        }
        ApplyBefore(e, b', w);
        DistSuffix(a, b', Apply(e, b'), w);
      }
    }
  }

  lemma {:induction false} NoShorterScript(a: string, script: seq<Edit>, b: string)
    requires Turns(a, script, b)
    ensures Dist(a, b) <= |script|
    decreases |script|
  {
    if script == [] {
      DistSelf(a);
    } else {
      var before, e := script[..|script| - 1], script[|script| - 1];
      var t := ApplyAll(a, before).value;
      NoShorterScript(a, before, t);
      DistOneEdit(a, e, t);
    }
  }

  lemma {:induction false} DistSelf(a: string)
    ensures Dist(a, a) == 0
    decreases |a|
  {
    if a != [] {
      DistSelf(a[..|a| - 1]);
    }
  }

  /** The last entry of the table is the length of the shortest script of insertions, deletions and
      substitutions, at any positions and in any order, that turns one string into the other. */
  lemma {:induction false} DistIsShortest(a: string, b: string)
    ensures exists script :: Turns(a, script, b) && |script| == Dist(a, b)
    ensures forall script :: Turns(a, script, b) ==> Dist(a, b) <= |script|
  {
    ShortestTurns(a, b);
    forall script | Turns(a, script, b) ensures Dist(a, b) <= |script| {
      NoShorterScript(a, script, b);
    }
  }

  // ----- the distance is a metric, part two -------------------------------------------------

  /** A script that does something turns a string by all its edits but the last, then by the last. */
  lemma {:induction false} LastTurn(b: string, t: seq<Edit>, c: string) returns (u: string)
    requires Turns(b, t, c) && t != []
    ensures Turns(b, t[..|t| - 1], u) && Fits(t[|t| - 1], u) && c == Apply(t[|t| - 1], u)
  {
    hide Fits, Apply;
    u := ApplyAll(b, t[..|t| - 1]).value;
  }

  lemma {:induction false} NoTurn(b: string, c: string)
    ensures Turns(b, [], c) ==> b == c
  {
  }

  lemma {:induction false} TurnsTwice(a: string, s: seq<Edit>, b: string, t: seq<Edit>, c: string)
    requires Turns(a, s, b) && Turns(b, t, c)
    ensures Turns(a, s + t, c)
    decreases |t|
  {
    hide Turns, Fits, Apply;
    if t == [] {
      assert s + t == s;
      NoTurn(b, c);
    } else {
      var before, e := t[..|t| - 1], t[|t| - 1];
      var u := LastTurn(b, t, c);
      TurnsTwice(a, s, b, before, u);
      TurnsSnoc(a, s + before, u, e);
      assert s + t == s + before + [e];
    }
  }

  /** Zero exactly for equal strings, symmetric, and subject to the triangle inequality. */
  lemma {:induction false} DistIsAMetric(a: string, b: string, c: string)
    ensures Dist(a, b) == 0 <==> a == b
    ensures Dist(a, b) == Dist(b, a)
    ensures Dist(a, c) <= Dist(a, b) + Dist(b, c)
  {
    DistSelf(a);
    if Dist(a, b) == 0 {
      ShortestTurns(a, b);
    }
    DistSymmetric(a, b);
    ShortestTurns(a, b);
    ShortestTurns(b, c);
    TurnsTwice(a, Shortest(a, b), b, Shortest(b, c), c);
    NoShorterScript(a, Shortest(a, b) + Shortest(b, c), c);
  }
}
