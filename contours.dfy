/**
 * The contour filter of Image.get_text_boxes: a `for` loop over the contour
 * list that removes rejected contours from that same list while iterating it.
 */
module Contours {
  import opened Seqs
  import opened Grids

  /** A contour found by cv2.findContours: an identity (its point array) and its bounding box. */
  datatype Contour = Contour(id: nat, box: Box)

  /** Which of the loop's two tests, if any, removes a contour. */
  datatype Verdict = TooTall | TooNarrow | Kept

  /**
   * The two tests in the order the loop applies them: `h > w` first (and
   * `continue`), then `w < width * .15`, written exactly as `100 * w < 15 * width`.
   */
  function Classify(b: Box, width: nat): (v: Verdict)
    ensures v == TooTall <==> b.h > b.w
    ensures v == TooNarrow <==> b.h <= b.w && 100 * b.w < 15 * width
    ensures v == Kept <==> b.w >= b.h && 100 * b.w >= 15 * width
  {
    if b.h > b.w then TooTall
    else if 100 * b.w < 15 * width then TooNarrow
    else Kept
  }

  predicate Rejected(c: Contour, width: nat) {
    Classify(c.box, width) != Kept
  }

  /**
   * What the loop does to list `s` when its iterator stands at index `k`: Python's
   * list iterator reads `s[k]` and advances to `k + 1`; a rejected contour is taken
   * out with `list.remove`, so the list shrinks under the iterator.
   */
  ghost function Walk(s: seq<Contour>, k: nat, width: nat): (r: seq<Contour>)
    ensures |r| <= |s|
    decreases |s| - k
  {
    if k >= |s| then s
    else if Rejected(s[k], width) then Walk(RemoveFirst(s, s[k]), k + 1, width)
    else Walk(s, k + 1, width)
  }

  /**
   * The list the loop returns, in closed form: a kept head stays; a rejected head
   * goes, and the contour after it moves into its slot and is never looked at.
   */
  function Survivors(s: seq<Contour>, width: nat): (r: seq<Contour>)
  {
    if s == [] then []
    else if !Rejected(s[0], width) then [s[0]] + Survivors(s[1..], width)
    else if |s| == 1 then []
    else [s[1]] + Survivors(s[2..], width)
  }

  /** For each position of `s`, whether the loop ever reads the contour there. */
  function Examined(s: seq<Contour>, width: nat): (e: seq<bool>)
    ensures |e| == |s|
  {
    if s == [] then []
    else if !Rejected(s[0], width) then [true] + Examined(s[1..], width)
    else if |s| == 1 then [true]
    else [true, false] + Examined(s[2..], width)
  }

  /** For each position, whether its contour is still in the list at the end. */
  function SurvivalFlags(s: seq<Contour>, width: nat): (f: seq<bool>)
    ensures |f| == |s|
  {
    var e := Examined(s, width);
    seq(|s|, i requires 0 <= i < |s| => !e[i] || !Rejected(s[i], width))
  }

  /**
   * The intended filter, without removal during iteration: every contour that
   * passes both tests, in order.
   */
  function Accepted(s: seq<Contour>, width: nat): (r: seq<Contour>)
    ensures forall c :: c in r <==> c in s && !Rejected(c, width)
  {
    if s == [] then []
    else if !Rejected(s[0], width) then [s[0]] + Accepted(s[1..], width)
    else Accepted(s[1..], width)
  }

  /** No two rejected contours stand next to each other. */
  ghost predicate NoAdjacentRejects(s: seq<Contour>, width: nat) {
    forall i :: 0 <= i < |s| - 1 ==> !(Rejected(s[i], width) && Rejected(s[i + 1], width))
  }

  // ---------------------------------------------------------------------------
  // The loop itself

  /** The loop of Image.get_text_boxes over the list returned by cv2.findContours. */
  method FilterContours(contours: seq<Contour>, width: nat) returns (kept: seq<Contour>)
    ensures kept == Walk(contours, 0, width)
    ensures Distinct(contours) ==> kept == Survivors(contours, width)
  {
    var s := contours;
    var k := 0;  // the list iterator's index
    while k < |s|
      invariant Walk(s, k, width) == Walk(contours, 0, width)
      decreases |s| - k
    {
      var contour := s[k];
      k := k + 1;
      var b := contour.box;
      if b.h > b.w {
        s := RemoveFirst(s, contour);
        continue;
      }
      if 100 * b.w < 15 * width {
        s := RemoveFirst(s, contour);
        continue;
      }
    }
    kept := s;
    if Distinct(contours) {
      WalkIsSurvivors(contours, 0, width);
    }
  }

  // ---------------------------------------------------------------------------
  // Lemmas

  /** On distinct contours the loop, started at `k`, keeps `s[..k]` and filters the rest as Survivors says. */
  lemma {:induction false} WalkIsSurvivors(s: seq<Contour>, k: nat, width: nat)
    requires Distinct(s) && k <= |s|
    ensures Walk(s, k, width) == s[..k] + Survivors(s[k..], width)
    decreases |s| - k
  {
    if k == |s| {
      assert s[k..] == [];
      assert s[..k] == s;
    } else if !Rejected(s[k], width) {
      assert Walk(s, k, width) == Walk(s, k + 1, width);
      WalkIsSurvivors(s, k + 1, width);
      SurvivorsStepKept(s, k, width);
    } else {
      var t := s[..k] + s[k + 1..];
      RemoveFirstOfDistinct(s, k);
      assert Walk(s, k, width) == Walk(t, k + 1, width);
      if k + 1 == |s| {
        assert t == s[..k];
        assert Walk(t, k + 1, width) == t;
        assert s[k..] == [s[k]];
      } else {
        DistinctWithout(s, k);
        WalkIsSurvivors(t, k + 1, width);
        SurvivorsStepRejected(s, k, width);
      }
    }
  }

  lemma SurvivorsStepKept(s: seq<Contour>, k: nat, width: nat)
    requires k < |s| && !Rejected(s[k], width)
    ensures s[..k + 1] + Survivors(s[k + 1..], width) == s[..k] + Survivors(s[k..], width)
  {
    assert s[k..][1..] == s[k + 1..];
    assert s[..k + 1] == s[..k] + [s[k]];
  }

  lemma SurvivorsStepRejected(s: seq<Contour>, k: nat, width: nat)
    requires k + 1 < |s| && Rejected(s[k], width)
    ensures var t := s[..k] + s[k + 1..];
            t[..k + 1] + Survivors(t[k + 1..], width) == s[..k] + Survivors(s[k..], width)
  {
    var t := s[..k] + s[k + 1..];
    assert t[..k + 1] == s[..k] + [s[k + 1]];
    assert t[k + 1..] == s[k + 2..];
    assert s[k..][1] == s[k + 1];
    assert s[k..][2..] == s[k + 2..];
  }

  /** What survives is exactly the contours the loop never read, plus those it read and kept. */
  lemma {:induction false} SurvivorsAreSelected(s: seq<Contour>, width: nat)
    ensures Survivors(s, width) == Select(s, SurvivalFlags(s, width))
  {
    if s != [] {
      var f := SurvivalFlags(s, width);
      if !Rejected(s[0], width) {
        SurvivalFlagsTail(s, width, 1);
        SurvivorsAreSelected(s[1..], width);
        assert Survivors(s, width) == [s[0]] + Survivors(s[1..], width);
        assert f[0];
      } else if |s| > 1 {
        SurvivalFlagsTail(s, width, 2);
        SurvivorsAreSelected(s[2..], width);
        assert s[1..][1..] == s[2..] && f[1..][1..] == f[2..];
        assert !f[0] && f[1];
        assert Select(s, f) == Select(s[1..], f[1..]);
        assert Select(s[1..], f[1..]) == [s[1]] + Select(s[2..], f[2..]);
      }
    }
  }

  /** Past the part the first step decides, the flags are those of the rest of the list. */
  lemma SurvivalFlagsTail(s: seq<Contour>, width: nat, n: nat)
    requires 0 < n <= |s|
    requires n == (if Rejected(s[0], width) then 2 else 1)
    ensures SurvivalFlags(s, width)[n..] == SurvivalFlags(s[n..], width)
    ensures SurvivalFlags(s, width)[0] == !Rejected(s[0], width)
    ensures n == 2 ==> SurvivalFlags(s, width)[1]
  {
    var e := Examined(s, width);
    if n == 1 {
      assert e == [true] + Examined(s[1..], width);
    } else {
      assert e == [true, false] + Examined(s[2..], width);
    }
    assert e[n..] == Examined(s[n..], width);
    var f, g := SurvivalFlags(s, width)[n..], SurvivalFlags(s[n..], width);
    forall i | 0 <= i < |g| ensures f[i] == g[i] {
      assert e[n + i] == Examined(s[n..], width)[i];
      assert s[n + i] == s[n..][i];
    }
  }

  /** The loop reads the first contour, and reads the next one unless it just removed the current one. */
  lemma {:induction false} ExaminedStep(s: seq<Contour>, width: nat, i: nat)
    requires i + 1 < |s|
    ensures Examined(s, width)[0]
    ensures Examined(s, width)[i + 1] <==> !(Examined(s, width)[i] && Rejected(s[i], width))
    decreases |s|
  {
    var e := Examined(s, width);
    if !Rejected(s[0], width) {
      if i > 0 {
        ExaminedStep(s[1..], width, i - 1);
        assert e[1..] == Examined(s[1..], width);
      } else if |s| > 1 {
        FirstIsExamined(s[1..], width);
        assert e[1] == Examined(s[1..], width)[0];
      }
    } else if i > 1 {
      ExaminedStep(s[2..], width, i - 2);
      assert e[2..] == Examined(s[2..], width);
    } else if i == 1 && |s| > 2 {
      FirstIsExamined(s[2..], width);
      assert e[2] == Examined(s[2..], width)[0];
    }
  }

  /** The list comes back unchanged exactly when no contour is rejected. */
  lemma {:induction false} SurvivorsUnchanged(s: seq<Contour>, width: nat)
    ensures Survivors(s, width) == s <==> forall i :: 0 <= i < |s| ==> !Rejected(s[i], width)
  {
    SurvivorsAreSelected(s, width);
    SelectAll(s, SurvivalFlags(s, width));
    if forall i :: 0 <= i < |s| ==> !Rejected(s[i], width) {
      assert forall i :: 0 <= i < |s| ==> SurvivalFlags(s, width)[i];
    } else {
      var i :| 0 <= i < |s| && Rejected(s[i], width);
      if |s| > 0 { FirstIsExamined(s, width); }
      if !Examined(s, width)[i] {
        ExaminedStep(s, width, i - 1);
        assert !SurvivalFlags(s, width)[i - 1];
      } else {
        assert !SurvivalFlags(s, width)[i];
      }
    }
  }

  lemma FirstIsExamined(s: seq<Contour>, width: nat)
    requires |s| > 0
    ensures Examined(s, width)[0]
  {
  }

  /** A rejected contour that the loop reads is always followed by a contour that survives unread. */
  lemma SkippedAfterRemoval(s: seq<Contour>, width: nat, i: nat)
    requires i + 1 < |s| && Examined(s, width)[i] && Rejected(s[i], width)
    ensures !Examined(s, width)[i + 1] && SurvivalFlags(s, width)[i + 1] && !SurvivalFlags(s, width)[i]
  {
    ExaminedStep(s, width, i);
  }

  /**
   * Every contour that survives passes both tests exactly when no two rejected
   * contours are adjacent in the input.
   */
  lemma {:induction false} SurvivorsPassIff(s: seq<Contour>, width: nat)
    ensures (forall c :: c in Survivors(s, width) ==> !Rejected(c, width)) <==> NoAdjacentRejects(s, width)
  {
    if s == [] {
    } else if !Rejected(s[0], width) {
      SurvivorsPassIff(s[1..], width);
      if NoAdjacentRejects(s, width) {
        assert NoAdjacentRejects(s[1..], width) by {
          forall i | 0 <= i < |s[1..]| - 1
            ensures !(Rejected(s[1..][i], width) && Rejected(s[1..][i + 1], width))
          {
            assert s[1..][i] == s[i + 1] && s[1..][i + 1] == s[i + 2];
          }
        }
      } else {
        var i :| 0 <= i < |s| - 1 && Rejected(s[i], width) && Rejected(s[i + 1], width);
        assert i > 0;
        assert s[1..][i - 1] == s[i] && s[1..][i] == s[i + 1];
        assert !NoAdjacentRejects(s[1..], width);
      }
    } else if |s| == 1 {
    } else {
      SurvivorsPassIff(s[2..], width);
      if Rejected(s[1], width) {
        assert s[1] in Survivors(s, width);
        assert !NoAdjacentRejects(s, width) by { assert Rejected(s[0], width) && Rejected(s[1], width); }
      } else if NoAdjacentRejects(s, width) {
        assert NoAdjacentRejects(s[2..], width) by {
          forall i | 0 <= i < |s[2..]| - 1
            ensures !(Rejected(s[2..][i], width) && Rejected(s[2..][i + 1], width))
          {
            assert s[2..][i] == s[i + 2] && s[2..][i + 1] == s[i + 3];
          }
        }
      } else {
        var i :| 0 <= i < |s| - 1 && Rejected(s[i], width) && Rejected(s[i + 1], width);
        assert i > 1;
        assert s[2..][i - 2] == s[i] && s[2..][i - 1] == s[i + 1];
        assert !NoAdjacentRejects(s[2..], width);
      }
    }
  }

  /** Without adjacent rejected contours the loop returns exactly the intended filter. */
  lemma {:induction false} SurvivorsAreAccepted(s: seq<Contour>, width: nat)
    requires NoAdjacentRejects(s, width)
    ensures Survivors(s, width) == Accepted(s, width)
  {
    if s == [] {
    } else if !Rejected(s[0], width) {
      assert NoAdjacentRejects(s[1..], width) by {
        forall i | 0 <= i < |s[1..]| - 1
          ensures !(Rejected(s[1..][i], width) && Rejected(s[1..][i + 1], width))
        {
          assert s[1..][i] == s[i + 1] && s[1..][i + 1] == s[i + 2];
        }
      }
      SurvivorsAreAccepted(s[1..], width);
    } else if |s| > 1 {
      assert !Rejected(s[1], width);
      assert NoAdjacentRejects(s[2..], width) by {
        forall i | 0 <= i < |s[2..]| - 1
          ensures !(Rejected(s[2..][i], width) && Rejected(s[2..][i + 1], width))
        {
          assert s[2..][i] == s[i + 2] && s[2..][i + 1] == s[i + 3];
        }
      }
      SurvivorsAreAccepted(s[2..], width);
      assert s[1..][1..] == s[2..];
    }
  }

  /** Two adjacent rejected contours: the second one survives the loop though it fails both tests. */
  lemma AdjacentRejectSurvives()
    ensures var tall := Contour(0, Box(0, 0, 10, 40));
            var narrow := Contour(1, Box(0, 50, 10, 5));
            Survivors([tall, narrow], 100) == [narrow]
            && Classify(narrow.box, 100) == TooNarrow
            && Accepted([tall, narrow], 100) == []
  {
    var tall := Contour(0, Box(0, 0, 10, 40));
    var narrow := Contour(1, Box(0, 50, 10, 5));
    assert [tall, narrow][2..] == [];
    assert [tall, narrow][1..] == [narrow] && [narrow][1..] == [];
    assert Rejected(narrow, 100);
    assert Accepted([narrow], 100) == Accepted([], 100) == [];
  }
}
