/** The greedy matching of contacts to fingers, over a table of distances:
    `rows[j][i]` is the distance of contact `j` from finger `i`. */
module Matching {
  import opened Machine

  /** What a finger remembers of the matching: the distance and index of its contact. */
  datatype Mark = Mark(dist: int, id: int) {
    /** INT_MAX is the "no contact yet" distance. */
    predicate Matched() { dist != INT_MAX }
  }

  ghost predicate Table(rows: seq<seq<int>>, fingers: nat) {
    forall j :: 0 <= j < |rows| ==> Row(rows[j], fingers)
  }

  ghost predicate Row(row: seq<int>, fingers: nat) {
    |row| == fingers && forall i :: 0 <= i < fingers ==> row[i] < INT_MAX
  }

  ghost predicate AllFree(marks: seq<Mark>) {
    forall i :: 0 <= i < |marks| ==> !marks[i].Matched()
  }

  /** Finger `i` has no better contact than the one at this distance. */
  predicate Eligible(row: seq<int>, marks: seq<Mark>, i: nat)
    requires i < |row| == |marks|
  {
    row[i] <= marks[i].dist
  }

  /** `c` is the first of the nearest fingers, among the first `n`, that would take the contact;
      -1 when none would. */
  ghost predicate Nearest(row: seq<int>, marks: seq<Mark>, n: nat, c: int)
    requires n <= |row| == |marks|
  {
    && -1 <= c < n
    && (c == -1 ==> forall i :: 0 <= i < n ==> !Eligible(row, marks, i))
    && (c >= 0 ==>
          && Eligible(row, marks, c)
          && (forall i :: 0 <= i < n && Eligible(row, marks, i) ==>
                row[c] <= row[i] && (i < c ==> row[c] < row[i])))
  }

  function Choose(row: seq<int>, marks: seq<Mark>, n: nat): (c: int)
    requires n <= |row| == |marks|
    requires Row(row, |row|)
    ensures Nearest(row, marks, n, c)
  {
    if n == 0 then -1 else
      var c := Choose(row, marks, n - 1);
      if Eligible(row, marks, n - 1) && row[n - 1] < (if c < 0 then INT_MAX else row[c]) then n - 1 else c
  }

  lemma ChooseStep(row: seq<int>, marks: seq<Mark>, n: nat)
    requires n < |row| == |marks| && Row(row, |row|)
    ensures var c := Choose(row, marks, n);
            Choose(row, marks, n + 1)
            == if row[n] <= marks[n].dist && row[n] < (if c < 0 then INT_MAX else row[c]) then n else c
  {}

  lemma NearestIsUnique(row: seq<int>, marks: seq<Mark>, n: nat, c: int, d: int)
    requires n <= |row| == |marks|
    requires Nearest(row, marks, n, c) && Nearest(row, marks, n, d)
    ensures c == d
  {
    if c >= 0 && d >= 0 {
      assert Eligible(row, marks, c) && Eligible(row, marks, d);
    }
  }

  /** The marks after the first `j` contacts have been offered to the fingers. */
  function MatchUpTo(rows: seq<seq<int>>, free: seq<Mark>, j: nat): (marks: seq<Mark>)
    requires j <= |rows| && Table(rows, |free|)
    ensures |marks| == |free|
  {
    if j == 0 then free else
      var before := MatchUpTo(rows, free, j - 1);
      var c := Choose(rows[j - 1], before, |free|);
      if c < 0 then before else before[c := Mark(rows[j - 1][c], j - 1)]
  }

  function Match(rows: seq<seq<int>>, free: seq<Mark>): (marks: seq<Mark>)
    requires Table(rows, |free|)
    ensures |marks| == |free|
  {
    MatchUpTo(rows, free, |rows|)
  }

  /** Matched fingers hold distinct contacts at their true distance; the others are as they were. */
  ghost predicate Injective(rows: seq<seq<int>>, free: seq<Mark>, marks: seq<Mark>, j: nat)
    requires j <= |rows| && |marks| == |free| && Table(rows, |free|)
  {
    && (forall i :: 0 <= i < |marks| ==> if marks[i].Matched()
                      then 0 <= marks[i].id < j && marks[i].dist == rows[marks[i].id][i]
                      else marks[i] == free[i])
    && (forall i, k :: 0 <= i < k < |marks| && marks[i].Matched() && marks[k].Matched() ==>
          marks[i].id != marks[k].id)
  }

  lemma {:induction false} MatchIsInjective(rows: seq<seq<int>>, free: seq<Mark>, j: nat)
    requires j <= |rows| && Table(rows, |free|) && AllFree(free)
    ensures Injective(rows, free, MatchUpTo(rows, free, j), j)
  {
    if j > 0 {
      MatchIsInjective(rows, free, j - 1);
      assert Row(rows[j - 1], |free|);
    }
  }

  /** A finger's distance never grows while contacts are offered. */
  lemma {:induction false} DistanceNeverGrows(rows: seq<seq<int>>, free: seq<Mark>, j: nat, k: nat, i: nat)
    requires j <= k <= |rows| && Table(rows, |free|) && i < |free|
    ensures MatchUpTo(rows, free, k)[i].dist <= MatchUpTo(rows, free, j)[i].dist
  {
    if j < k {
      DistanceNeverGrows(rows, free, j, k - 1, i);
    }
  }

  /** A finger whose contact is `j` at the end received it when `j` was offered. */
  lemma {:induction false} MatchedWhenOffered(rows: seq<seq<int>>, free: seq<Mark>, k: nat, i: nat)
    requires k <= |rows| && Table(rows, |free|) && AllFree(free) && i < |free|
    requires MatchUpTo(rows, free, k)[i].Matched()
    ensures var j := MatchUpTo(rows, free, k)[i].id;
            0 <= j < k && i == Choose(rows[j], MatchUpTo(rows, free, j), |free|)
  {
    MatchIsInjective(rows, free, k);
    if MatchUpTo(rows, free, k - 1)[i] == MatchUpTo(rows, free, k)[i] {
      MatchedWhenOffered(rows, free, k - 1, i);
    }
  }

  /** No blocking pair: no finger that would take a finally matched contact is nearer to it
      than the finger that has it. */
  lemma NoBlockingPair(rows: seq<seq<int>>, free: seq<Mark>, g: nat, f: nat)
    requires Table(rows, |free|) && AllFree(free) && g < |free| && f < |free|
    requires Match(rows, free)[g].Matched()
    ensures var marks := Match(rows, free);
            var j := marks[g].id;
            0 <= j < |rows| && !(rows[j][f] < rows[j][g] && rows[j][f] <= marks[f].dist)
  {
    var marks := Match(rows, free);
    MatchedWhenOffered(rows, free, |rows|, g);
    var j := marks[g].id;
    var offered := MatchUpTo(rows, free, j);
    DistanceNeverGrows(rows, free, j, |rows|, f);
    assert Nearest(rows[j], offered, |free|, g);
    if rows[j][f] <= marks[f].dist {
      assert Eligible(rows[j], offered, f);
    }
  }

  ghost predicate LeastPair(rows: seq<seq<int>>, fingers: nat, j: nat, i: nat)
    requires Table(rows, fingers) && j < |rows| && i < fingers
  {
    forall k, h :: 0 <= k < |rows| && 0 <= h < fingers ==> rows[j][i] <= rows[k][h]
  }

  lemma LeastIsOffered(rows: seq<seq<int>>, free: seq<Mark>, j: nat, i: nat) returns (g: nat)
    requires Table(rows, |free|) && AllFree(free) && j < |rows| && i < |free|
    requires LeastPair(rows, |free|, j, i)
    ensures g < |free| && MatchUpTo(rows, free, j + 1)[g] == Mark(rows[j][i], j)
  {
    var offered := MatchUpTo(rows, free, j);
    MatchIsInjective(rows, free, j);
    assert Row(rows[j], |free|);
    assert Eligible(rows[j], offered, i);
    g := Choose(rows[j], offered, |free|);
  }

  lemma NoDistanceBelow(rows: seq<seq<int>>, free: seq<Mark>, j: nat, i: nat)
    requires Table(rows, |free|) && AllFree(free) && j < |rows| && i < |free|
    requires LeastPair(rows, |free|, j, i)
    ensures rows[j][i] < INT_MAX && forall h :: 0 <= h < |free| ==> rows[j][i] <= Match(rows, free)[h].dist
  {
    hide MatchUpTo;
    MatchIsInjective(rows, free, |rows|);
    assert Row(rows[j], |free|);
  }

  /** The closest pair is honoured: some finger ends at the least distance in the table, and none below it. */
  lemma ClosestPairIsMatched(rows: seq<seq<int>>, free: seq<Mark>, j: nat, i: nat) returns (g: nat)
    requires Table(rows, |free|) && AllFree(free) && j < |rows| && i < |free|
    requires LeastPair(rows, |free|, j, i)
    ensures g < |free| && Match(rows, free)[g].Matched() && Match(rows, free)[g].dist == rows[j][i]
    ensures forall h :: 0 <= h < |free| ==> rows[j][i] <= Match(rows, free)[h].dist
  {
    hide MatchUpTo, LeastPair, Table;
    g := LeastIsOffered(rows, free, j, i);
    NoDistanceBelow(rows, free, j, i);
    DistanceNeverGrows(rows, free, j + 1, |rows|, g);
  }

  lemma {:induction false} LeastPairExists(rows: seq<seq<int>>, fingers: nat) returns (j: nat, i: nat)
    requires Table(rows, fingers) && rows != [] && fingers > 0
    ensures j < |rows| && i < fingers && LeastPair(rows, fingers, j, i)
  {
    var last := |rows| - 1;
    i := LeastInRow(rows[last], fingers);
    j := last;
    if last > 0 {
      var rest := rows[..last];
      var j0, i0 := LeastPairExists(rest, fingers);
      if rest[j0][i0] <= rows[last][i] {
        j, i := j0, i0;
      }
      forall k, h | 0 <= k < |rows| && 0 <= h < fingers
        ensures rows[j][i] <= rows[k][h]
      {
        if k < last {
          assert rest[j0][i0] <= rest[k][h];
        }
      }
    }
  }

  lemma {:induction false} LeastInRow(row: seq<int>, n: nat) returns (i: nat)
    requires 0 < n <= |row|
    ensures i < n && forall h :: 0 <= h < n ==> row[i] <= row[h]
  {
    i := n - 1;
    if n > 1 {
      var i0 := LeastInRow(row, n - 1);
      if row[i0] <= row[i] {
        i := i0;
      }
    }
  }

  /** Finger `f` is the nearest to contact `j`, and contact `j` the nearest to finger `f`, both strictly. */
  ghost predicate MutuallyNearest(rows: seq<seq<int>>, fingers: nat, j: nat, f: nat)
    requires Table(rows, fingers) && j < |rows| && f < fingers
  {
    && (forall i :: 0 <= i < fingers && i != f ==> rows[j][f] < rows[j][i])
    && (forall k :: 0 <= k < |rows| && k != j ==> rows[j][f] < rows[k][f])
  }

  /** From contact `j` on, the finger has it. */
  lemma {:induction false} NearestIsHeld(rows: seq<seq<int>>, free: seq<Mark>, j: nat, f: nat, k: nat)
    requires Table(rows, |free|) && AllFree(free) && j < k <= |rows| && f < |free|
    requires MutuallyNearest(rows, |free|, j, f)
    ensures MatchUpTo(rows, free, k)[f] == Mark(rows[j][f], j)
  {
    if k == j + 1 {
      var offered := MatchUpTo(rows, free, j);
      MatchIsInjective(rows, free, j);
      assert Row(rows[j], |free|);
      assert Eligible(rows[j], offered, f);
      assert Choose(rows[j], offered, |free|) == f;
    } else {
      NearestIsHeld(rows, free, j, f, k - 1);
      assert !Eligible(rows[k - 1], MatchUpTo(rows, free, k - 1), f);
    }
  }

  /** A finger and a contact that are strictly nearest to each other are matched, whatever else is on the
      panel and in whatever order the contacts come. */
  lemma MutuallyNearestAreMatched(rows: seq<seq<int>>, free: seq<Mark>, j: nat, f: nat)
    requires Table(rows, |free|) && AllFree(free) && j < |rows| && f < |free|
    requires MutuallyNearest(rows, |free|, j, f)
    ensures Match(rows, free)[f] == Mark(rows[j][f], j)
  {
    NearestIsHeld(rows, free, j, f, |rows|);
  }

  /** With a finger and a contact there is always a match. */
  lemma SomeFingerIsMatched(rows: seq<seq<int>>, free: seq<Mark>) returns (g: nat)
    requires Table(rows, |free|) && AllFree(free) && rows != [] && free != []
    ensures g < |free| && Match(rows, free)[g].Matched()
  {
    var j, i := LeastPairExists(rows, |free|);
    g := ClosestPairIsMatched(rows, free, j, i);
  }
}
