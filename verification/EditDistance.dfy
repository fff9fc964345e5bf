/**
 The suggestion for a mistyped template variable in src/notify/template.go: the edit
 distance between two names, computed over two rows, and the closest allowed name.
 */
module EditDistance {

  function Min3(a: int, b: int, c: int): (m: int)
    ensures m <= a && m <= b && m <= c
    ensures m == a || m == b || m == c
  {
    var m := if b < a then b else a;
    if c < m then c else m
  }

  // ----- Reference: the recursive distance

  function Init(s: string): string
    requires s != ""
  {
    s[..|s| - 1]
  }

  function Last(s: string): char
    requires s != ""
  {
    s[|s| - 1]
  }

  function Cost(x: char, y: char): nat {
    if x == y then 0 else 1
  }

  function Distance(a: string, b: string): nat
    decreases |a| + |b|
  {
    if a == "" then |b|
    else if b == "" then |a|
    else Min3(Distance(a, Init(b)) + 1, Distance(Init(a), b) + 1, Distance(Init(a), Init(b)) + Cost(Last(a), Last(b)))
  }

  // ----- The two-row computation

  /** The distance is attained by deleting, inserting or keeping a last character. */
  lemma OneOfThree(a: string, b: string)
    requires a != "" && b != ""
    ensures Distance(a, b) == Distance(a, Init(b)) + 1 ||
            Distance(a, b) == Distance(Init(a), b) + 1 ||
            Distance(a, b) == Distance(Init(a), Init(b)) + Cost(Last(a), Last(b))
  {}

  /** Dropping the last character of either side changes the distance by at most one. */
  lemma OneStep(a: string, b: string)
    ensures a != "" ==> Distance(a, b) <= Distance(Init(a), b) + 1
    ensures b != "" ==> Distance(a, b) <= Distance(a, Init(b)) + 1
    ensures a != "" && b != "" ==> Distance(a, b) <= Distance(Init(a), Init(b)) + Cost(Last(a), Last(b))
  {}

  lemma Cell(a: string, b: string, i: nat, j: nat)
    requires 1 <= i <= |a| && 1 <= j <= |b|
    ensures Distance(a[..i], b[..j]) ==
            Min3(Distance(a[..i], b[..j - 1]) + 1, Distance(a[..i - 1], b[..j]) + 1,
                 Distance(a[..i - 1], b[..j - 1]) + Cost(a[i - 1], b[j - 1]))
  {
    hide Distance;
    var s, t := a[..i], b[..j];
    assert Init(s) == a[..i - 1] && Init(t) == b[..j - 1];
    OneOfThree(s, t);
    OneStep(s, t);
  }

  lemma FirstColumn(a: string, b: string)
    requires b == ""
    ensures Distance(a, b) == |a|
  {}

  /** The row of distances from a prefix of `a` to every prefix of `b`. */
  ghost predicate IsRow(row: array<int>, prefix: string, b: string)
    requires row.Length == |b| + 1
    reads row
  {
    forall j | 0 <= j <= |b| :: row[j] == Distance(prefix, b[..j])
  }

  method Levenshtein(a: string, b: string) returns (d: int)
    ensures d == Distance(a, b)
  {
    var prev, curr := new int[|b| + 1], new int[|b| + 1];
    for j := 0 to |b| + 1
      invariant forall k | 0 <= k < j :: prev[k] == k
    {
      prev[j] := j;
    }
    for i := 1 to |a| + 1
      invariant prev != curr && prev.Length == curr.Length == |b| + 1
      invariant fresh(prev) && fresh(curr)
      invariant IsRow(prev, a[..i - 1], b)
    {
      FillRow(a, b, i, prev, curr);
      prev, curr := curr, prev;
    }
    assert a[..|a|] == a && b[..|b|] == b;
    return prev[|b|];
  }

  /** Computes the row of the first `i` characters of `a` from the row before it. */
  method FillRow(a: string, b: string, i: nat, prev: array<int>, curr: array<int>)
    requires 1 <= i <= |a| && prev != curr && prev.Length == curr.Length == |b| + 1
    requires IsRow(prev, a[..i - 1], b)
    modifies curr
    ensures IsRow(curr, a[..i], b)
  {
    hide Distance;
    FirstColumn(a[..i], b[..0]);
    curr[0] := i;
    for j := 1 to |b| + 1
      invariant IsRow(prev, a[..i - 1], b)
      invariant forall k | 0 <= k < j :: curr[k] == Distance(a[..i], b[..k])
    {
      var cost := 1;
      if a[i - 1] == b[j - 1] {
        cost := 0;
      }
      Cell(a, b, i, j);
      curr[j] := Min3(curr[j - 1] + 1, prev[j] + 1, prev[j - 1] + cost);
    }
  }

  // ----- The distance is a metric

  lemma {:induction false} ZeroOnlyIfEqual(a: string, b: string)
    ensures Distance(a, b) == 0 <==> a == b
    decreases |a| + |b|
  {
    if a != "" && b != "" {
      ZeroOnlyIfEqual(Init(a), Init(b));
      assert a == Init(a) + [Last(a)] && b == Init(b) + [Last(b)];
    }
  }

  lemma {:induction false} Symmetric(a: string, b: string)
    ensures Distance(a, b) == Distance(b, a)
    decreases |a| + |b|
  {
    if a != "" && b != "" {
      Symmetric(a, Init(b));
      Symmetric(Init(a), b);
      Symmetric(Init(a), Init(b));
    }
  }

  lemma {:induction false} LengthBound(a: string, b: string)
    ensures Distance(a, b) >= |a| - |b| && Distance(a, b) >= |b| - |a|
    ensures Distance(a, b) <= |a| + |b|
    decreases |a| + |b|
  {
    if a != "" && b != "" {
      LengthBound(a, Init(b));
      LengthBound(Init(a), b);
      LengthBound(Init(a), Init(b));
    }
  }

  lemma {:induction false} Triangle(a: string, b: string, c: string)
    ensures Distance(a, c) <= Distance(a, b) + Distance(b, c)
    decreases |a| + |b| + |c|
  {
    LengthBound(a, b);
    LengthBound(b, c);
    if a != "" && b != "" && c != "" {
      OneStep(a, c);
      if Distance(a, b) == Distance(Init(a), b) + 1 {
        Triangle(Init(a), b, c);
      } else if Distance(b, c) == Distance(b, Init(c)) + 1 {
        Triangle(a, b, Init(c));
      } else if Distance(a, b) == Distance(a, Init(b)) + 1 {
        if Distance(b, c) == Distance(Init(b), c) + 1 {
          Triangle(a, Init(b), c);
        } else {
          Triangle(a, Init(b), Init(c));
        }
      } else if Distance(b, c) == Distance(Init(b), c) + 1 {
        Triangle(Init(a), Init(b), c);
      } else {
        Triangle(Init(a), Init(b), Init(c));
      }
    } else {
      LengthBound(a, c);
    }
  }

  // ----- The distance is the length of a shortest sequence of edits

  /** `t` is `s` with the piece `x` between `p` and `q` replaced by the piece `y`. */
  predicate EditAt(s: string, t: string, p: string, x: string, y: string, q: string) {
    |x| <= 1 && |y| <= 1 && x != y && s == p + x + q && t == p + y + q
  }

  /** `t` is `s` with one character inserted, deleted or replaced. */
  ghost predicate Edit(s: string, t: string) {
    exists p, x, y, q :: EditAt(s, t, p, x, y, q)
  }

  /** A sequence of texts, each one edit away from the one before. */
  ghost predicate Edits(path: seq<string>, a: string, b: string) {
    path != [] && path[0] == a && path[|path| - 1] == b &&
    forall i | 0 <= i < |path| - 1 :: Edit(path[i], path[i + 1])
  }

  lemma {:induction false} Append(p: string, q: string, tail: string)
    ensures Distance(p + tail, q + tail) <= Distance(p, q)
  {
    if tail == "" {
      assert p + tail == p && q + tail == q;
    } else {
      Append(p, q, Init(tail));
      assert Init(p + tail) == p + Init(tail) && Init(q + tail) == q + Init(tail);
      OneStep(p + tail, q + tail);
    }
  }

  lemma PieceIsNear(p: string, x: string, y: string)
    requires |x| <= 1 && |y| <= 1
    ensures Distance(p + x, p + y) <= 1
  {
    ZeroOnlyIfEqual(p, p);
    if x == "" && y == "" {
      assert p + x == p && p + y == p;
    } else if x == "" {
      assert p + x == p && Init(p + y) == p;
      OneStep(p, p + y);
    } else if y == "" {
      assert p + y == p && Init(p + x) == p;
      OneStep(p + x, p);
    } else {
      assert Init(p + x) == p && Init(p + y) == p;
      OneStep(p + x, p + y);
    }
  }

  lemma EditIsNear(s: string, t: string)
    requires Edit(s, t)
    ensures Distance(s, t) <= 1
  {
    var p, x, y, q :| EditAt(s, t, p, x, y, q);
    PieceIsNear(p, x, y);
    Append(p + x, p + y, q);
  }

  /** No sequence of edits is shorter than the distance. */
  lemma {:induction false} EditsAreNoShorter(path: seq<string>, a: string, b: string)
    requires Edits(path, a, b)
    ensures Distance(a, b) <= |path| - 1
  {
    if |path| == 1 {
      ZeroOnlyIfEqual(a, b);
    } else {
      assert Edit(path[0], path[1]);
      EditIsNear(a, path[1]);
      EditsAreNoShorter(path[1..], path[1], b);
      Triangle(a, path[1], b);
    }
  }

  lemma EditBehind(s: string, t: string, tail: string)
    requires Edit(s, t)
    ensures Edit(s + tail, t + tail)
  {
    var p, x, y, q :| EditAt(s, t, p, x, y, q);
    assert EditAt(s + tail, t + tail, p, x, y, q + tail);
  }

  ghost function Behind(path: seq<string>, tail: string): seq<string> {
    seq(|path|, i requires 0 <= i < |path| => path[i] + tail)
  }

  lemma EditsBehind(path: seq<string>, a: string, b: string, tail: string)
    requires Edits(path, a, b)
    ensures Edits(Behind(path, tail), a + tail, b + tail)
  {
    forall i | 0 <= i < |path| - 1 ensures Edit(path[i] + tail, path[i + 1] + tail) {
      EditBehind(path[i], path[i + 1], tail);
    }
  }

  lemma OneMore(path: seq<string>, a: string, b: string, c: string)
    requires Edits(path, a, b) && Edit(b, c)
    ensures Edits(path + [c], a, c)
  {}

  lemma OneBefore(path: seq<string>, a: string, b: string, c: string)
    requires Edit(a, b) && Edits(path, b, c)
    ensures Edits([a] + path, a, c)
  {}

  lemma LastEdit(p: string, x: string, y: string)
    requires |x| <= 1 && |y| <= 1 && x != y
    ensures Edit(p + x, p + y)
  {
    assert EditAt(p + x, p + y, p, x, y, "");
  }

  /** A sequence of edits as short as the distance exists. */
  lemma {:induction false} ShortestEdits(a: string, b: string) returns (path: seq<string>)
    ensures Edits(path, a, b) && |path| == Distance(a, b) + 1
    decreases |a| + |b|
  {
    hide Edits, Edit, Distance;
    if a != "" && b != "" {
      OneOfThree(a, b);
    }
    EmptySides(a, b);
    if a == b {
      path := [a];
      Stay(a);
    } else if a == "" || (b != "" && Distance(a, b) == Distance(a, Init(b)) + 1) {
      path := ShortestEdits(a, Init(b));
      LastEdit(Init(b), "", [Last(b)]);
      assert Init(b) + "" == Init(b) && Init(b) + [Last(b)] == b;
      OneMore(path, a, Init(b), b);
      path := path + [b];
    } else if b == "" || Distance(a, b) == Distance(Init(a), b) + 1 {
      var rest := ShortestEdits(Init(a), b);
      LastEdit(Init(a), [Last(a)], "");
      assert Init(a) + "" == Init(a) && Init(a) + [Last(a)] == a;
      OneBefore(rest, a, Init(a), b);
      path := [a] + rest;
    } else {
      var tail := [Last(a)];
      var rest := ShortestEdits(Init(a), Init(b));
      EditsBehind(rest, Init(a), Init(b), tail);
      assert a == Init(a) + tail && b == Init(b) + [Last(b)];
      path := Behind(rest, tail);
      if Last(a) != Last(b) {
        LastEdit(Init(b), tail, [Last(b)]);
        OneMore(path, a, Init(b) + tail, b);
        path := path + [b];
      }
    }
  }

  lemma EmptySides(a: string, b: string)
    ensures a == "" && b != "" ==> Distance(a, b) == Distance(a, Init(b)) + 1
    ensures b == "" && a != "" ==> Distance(a, b) == Distance(Init(a), b) + 1
  {}

  lemma Stay(a: string)
    ensures Edits([a], a, a) && Distance(a, a) == 0
  {
    ZeroOnlyIfEqual(a, a);
  }

  /** The computed distance is the number of edits in a shortest sequence of edits. */
  lemma DistanceIsShortest(a: string, b: string)
    ensures exists path :: Edits(path, a, b) && |path| - 1 == Distance(a, b)
    ensures forall path | Edits(path, a, b) :: |path| - 1 >= Distance(a, b)
  {
    var path := ShortestEdits(a, b);
    forall path | Edits(path, a, b) ensures |path| - 1 >= Distance(a, b) {
      EditsAreNoShorter(path, a, b);
    }
  }

  // ----- The suggestion

  /** The closest allowed name; the iteration order of the allowed names is arbitrary. */
  method ClosestVariable(want: string, allowed: set<string>) returns (best: string)
    ensures (exists name :: name in allowed && Distance(want, name) <= 3) ==>
              best in allowed && Distance(want, best) <= 3 &&
              forall name | name in allowed :: Distance(want, best) <= Distance(want, name)
    ensures !(exists name :: name in allowed && Distance(want, name) <= 3) ==> best == ""
  {
    best := "";
    var bestDist := -1;
    var rest := allowed;
    while rest != {}
      invariant rest <= allowed
      invariant bestDist == -1 ==> rest == allowed
      invariant bestDist != -1 ==> best in allowed && bestDist == Distance(want, best)
      invariant bestDist != -1 ==> forall name | name in allowed - rest :: bestDist <= Distance(want, name)
      decreases |rest|
    {
      var name :| name in rest;
      rest := rest - {name};
      var d := Levenshtein(want, name);
      if bestDist == -1 || d < bestDist {
        bestDist := d;
        best := name;
      }
    }
    if bestDist >= 0 && bestDist <= 3 {
      return best;
    }
    return "";
  }
}
