/** The one-row table behind the "did you mean" suggestion for effect names. */
module EditDistance {
  function Min(a: nat, b: nat): nat { if a < b then a else b }

  function Min3(a: nat, b: nat, c: nat): nat { Min(a, Min(b, c)) }

  function Front(s: string): string
    requires s != ""
  {
    s[..|s| - 1]
  }

  function Last(s: string): char
    requires s != ""
  {
    s[|s| - 1]
  }

  /** The recurrence the table fills in. */
  function Distance(a: string, b: string): nat
    decreases |a| + |b|
  {
    if a == "" then |b|
    else if b == "" then |a|
    else if Last(a) == Last(b) then Distance(Front(a), Front(b))
    else 1 + Min3(Distance(Front(a), b), Distance(a, Front(b)), Distance(Front(a), Front(b)))
  }

  lemma Cell(a: string, b: string, i: nat, j: nat)
    requires 0 < i <= |a| && 0 < j <= |b|
    ensures Distance(a[..i], b[..j])
         == if a[i - 1] == b[j - 1] then Distance(a[..i - 1], b[..j - 1])
            else 1 + Min3(Distance(a[..i - 1], b[..j]), Distance(a[..i], b[..j - 1]), Distance(a[..i - 1], b[..j - 1]))
  {
    assert Front(a[..i]) == a[..i - 1] && Front(b[..j]) == b[..j - 1];
  }

  lemma Border(a: string, k: nat)
    requires k <= |a|
    ensures Distance("", a[..k]) == k && Distance(a[..k], "") == k
  {
  }

  /** One row of the table, overwritten in place: cells left of `j - 1` already hold the new row,
      `prev` the newest cell, the rest the old row. */
  method EffectEditDistance(a: string, b: string) returns (d: nat)
    ensures d == Distance(a, b)
  {
    hide Distance;
    Border(a, |a|);
    Border(b, |b|);
    assert a[..|a|] == a && b[..|b|] == b;
    if |a| == 0 {
      return |b|;
    }
    if |b| == 0 {
      return |a|;
    }
    var m, n := |a|, |b|;
    var row := new nat[n + 1](i => i);
    forall k | 0 <= k <= n
      ensures k == Distance(a[..0], b[..k])
    {
      Border(b, k);
    }
    for i := 1 to m + 1
      invariant forall k :: 0 <= k <= n ==> row[k] == Distance(a[..i - 1], b[..k])
    {
      var prev := i;
      Border(a, i);
      for j := 1 to n + 1
        invariant prev == Distance(a[..i], b[..j - 1])
        invariant forall k :: 0 <= k < j - 1 ==> row[k] == Distance(a[..i], b[..k])
        invariant forall k :: j - 1 <= k <= n ==> row[k] == Distance(a[..i - 1], b[..k])
      {
        Cell(a, b, i, j);
        var val := if a[i - 1] == b[j - 1] then row[j - 1] else 1 + Min3(row[j], prev, row[j - 1]);
        row[j - 1] := prev;
        prev := val;
      }
      row[n] := prev;
    }
    d := row[n];
  }

  // ----- The recurrence is the least number of edits -----

  /** `t` is `s` with one character inserted, deleted or replaced. */
  ghost predicate OneEdit(s: string, t: string) {
    exists p, x, y, q :: IsEdit(s, t, p, x, y, q)
  }

  ghost predicate IsEdit(s: string, t: string, p: string, x: string, y: string, q: string) {
    |x| <= 1 && |y| <= 1 && |x| + |y| > 0 && s == p + x + q && t == p + y + q
  }

  /** `k` edits turn `s` into `t`. */
  ghost predicate Edits(s: string, t: string, k: nat)
    decreases k
  {
    if k == 0 then s == t else exists u :: OneEdit(s, u) && Edits(u, t, k - 1)
  }

  lemma {:induction false} Symmetric(a: string, b: string)
    ensures Distance(a, b) == Distance(b, a)
    decreases |a| + |b|
  {
    if a != "" && b != "" {
      Symmetric(Front(a), b);
      Symmetric(a, Front(b));
      Symmetric(Front(a), Front(b));
    }
  }

  lemma Unfold(a: string, c: char, b: string, d: char)
    ensures Distance(a + [c], b + [d])
         == if c == d then Distance(a, b) else 1 + Min3(Distance(a, b + [d]), Distance(a + [c], b), Distance(a, b))
  {
    assert Front(a + [c]) == a && Front(b + [d]) == b;
  }

  /** Adding a last character to one side changes the distance by at most one. */
  lemma {:induction false} LastCharacter(s: string, c: char, t: string)
    ensures Distance(s + [c], t) <= 1 + Distance(s, t)
    ensures Distance(s, t) <= 1 + Distance(s + [c], t)
    decreases |s| + |t|
  {
    if t != "" {
      var t', d := Front(t), Last(t);
      assert t == t' + [d];
      Unfold(s, c, t', d);
      LastCharacter(s, c, t');
      Symmetric(s, t);
      Symmetric(s, t');
      LastCharacter(t', d, s);
    } else {
      assert Distance(s, "") == |s| by { Symmetric(s, ""); }
      assert Distance(s + [c], "") == |s| + 1 by { Symmetric(s + [c], ""); }
    }
  }

  /** Two strings that differ in one place before a common tail are at most one apart from any third. */
  lemma {:induction false} EditBeforeTail(p: string, x: string, y: string, q: string, t: string)
    requires |x| <= 1 && |y| <= 1
    ensures Distance(p + x + q, t) <= 1 + Distance(p + y + q, t)
    decreases |q| + |t|
  {
    if q != "" {
      var q', g := Front(q), Last(q);
      assert p + x + q == p + x + q' + [g] && p + y + q == p + y + q' + [g];
      EditBeforeTail(p, x, y, q', t);
      if t == "" {
        LengthDistance(p + x + q);
        LengthDistance(p + y + q);
      } else {
        var t', d := Front(t), Last(t);
        assert t == t' + [d];
        EditBeforeTail(p, x, y, q, t');
        EditBeforeTail(p, x, y, q', t');
        Unfold(p + x + q', g, t', d);
        Unfold(p + y + q', g, t', d);
      }
    } else {
      assert p + x + q == p + x && p + y + q == p + y;
      EditLast(p, x, y, t);
    }
  }

  lemma LengthDistance(s: string)
    ensures Distance(s, "") == |s|
  {
  }

  lemma {:induction false} EditLast(p: string, x: string, y: string, t: string)
    requires |x| <= 1 && |y| <= 1
    ensures Distance(p + x, t) <= 1 + Distance(p + y, t)
    decreases |t|
  {
    if y == "" || x == "" {
      assert p + "" == p;
      if x != "" {
        assert x == [x[0]];
        LastCharacter(p, x[0], t);
      } else if y != "" {
        assert y == [y[0]];
        LastCharacter(p, y[0], t);
      }
    } else {
      assert x == [x[0]] && y == [y[0]];
      LengthDistance(p + x);
      LengthDistance(p + y);
      if t != "" {
        var t', d := Front(t), Last(t);
        assert t == t' + [d];
        Unfold(p, x[0], t', d);
        Unfold(p, y[0], t', d);
        EditLast(p, x, y, t');
        LastCharacter(p, x[0], t');
        LastCharacter(p, y[0], t');
        Symmetric(p, t);
        Symmetric(p, t');
        LastCharacter(t', d, p);
        Symmetric(p + x, t);
        Symmetric(p + x, t');
        LastCharacter(t', d, p + x);
      }
    }
  }

  /** No shorter sequence of edits exists. */
  lemma {:induction false} NoFewerEdits(s: string, t: string, k: nat)
    requires Edits(s, t, k)
    ensures Distance(s, t) <= k
    decreases k
  {
    if k == 0 {
      SelfDistance(s);
    } else {
      var u :| OneEdit(s, u) && Edits(u, t, k - 1);
      var p, x, y, q :| IsEdit(s, u, p, x, y, q);
      NoFewerEdits(u, t, k - 1);
      EditBeforeTail(p, x, y, q, t);
    }
  }

  lemma {:induction false} SelfDistance(s: string)
    ensures Distance(s, s) == 0
    decreases |s|
  {
    if s != "" {
      SelfDistance(Front(s));
    }
  }

  lemma {:induction false} EditsUnderTail(s: string, t: string, k: nat, c: char)
    requires Edits(s, t, k)
    ensures Edits(s + [c], t + [c], k)
    decreases k
  {
    if k > 0 {
      var u :| OneEdit(s, u) && Edits(u, t, k - 1);
      var p, x, y, q :| IsEdit(s, u, p, x, y, q);
      assert s + [c] == p + x + (q + [c]) && u + [c] == p + y + (q + [c]);
      assert IsEdit(s + [c], u + [c], p, x, y, q + [c]);
      EditsUnderTail(u, t, k - 1, c);
      assert OneEdit(s + [c], u + [c]) && Edits(u + [c], t + [c], k - 1);
    }
  }

  lemma EditThen(s: string, u: string, t: string, k: nat, p: string, x: string, y: string, q: string)
    requires IsEdit(s, u, p, x, y, q) && Edits(u, t, k)
    ensures Edits(s, t, k + 1)
  {
    assert OneEdit(s, u) && Edits(u, t, k);
  }

  lemma DeleteStep(s: string, c: char, t: string, k: nat)
    requires Edits(s, t, k)
    ensures Edits(s + [c], t, k + 1)
  {
    assert s + [c] == s + [c] + "" && s == s + "" + "";
    EditThen(s + [c], s, t, k, s, [c], "", "");
  }

  lemma InsertStep(s: string, t: string, d: char, k: nat)
    requires Edits(s, t, k)
    ensures Edits(s, t + [d], k + 1)
  {
    EditsUnderTail(s, t, k, d);
    assert s == s + "" + "" && s + [d] == s + [d] + "";
    EditThen(s, s + [d], t + [d], k, s, "", [d], "");
  }

  lemma ReplaceStep(s: string, c: char, t: string, d: char, k: nat)
    requires Edits(s, t, k)
    ensures Edits(s + [c], t + [d], k + 1)
  {
    EditsUnderTail(s, t, k, d);
    assert s + [c] == s + [c] + "" && s + [d] == s + [d] + "";
    EditThen(s + [c], s + [d], t + [d], k, s, [c], [d], "");
  }

  /** That many edits suffice. */
  lemma {:induction false} EnoughEdits(s: string, t: string)
    ensures Edits(s, t, Distance(s, t))
    decreases |s| + |t|
  {
    hide Edits;
    if s == "" && t == "" {
      NoEdits();
    } else if s == "" {
      EnoughEdits(s, Front(t));
      InsertStep(s, Front(t), Last(t), |t| - 1);
      assert t == Front(t) + [Last(t)];
    } else if t == "" {
      LengthDistance(Front(s));
      EnoughEdits(Front(s), t);
      DeleteStep(Front(s), Last(s), t, |s| - 1);
      assert s == Front(s) + [Last(s)];
    } else {
      var s', c, t', d := Front(s), Last(s), Front(t), Last(t);
      assert s == s' + [c] && t == t' + [d];
      EnoughEdits(s', t');
      EnoughEdits(s', t);
      EnoughEdits(s, t');
      if c == d {
        EditsUnderTail(s', t', Distance(s', t'), c);
      } else {
        LastStep(s', c, t', d, Distance(s', t), Distance(s, t'), Distance(s', t'));
      }
    }
  }

  lemma LastStep(s: string, c: char, t: string, d: char, x: nat, y: nat, z: nat)
    requires Edits(s, t + [d], x) && Edits(s + [c], t, y) && Edits(s, t, z)
    ensures Edits(s + [c], t + [d], 1 + Min3(x, y, z))
  {
    hide Edits;
    DeleteStep(s, c, t + [d], x);
    InsertStep(s + [c], t, d, y);
    ReplaceStep(s, c, t, d, z);
  }

  lemma NoEdits()
    ensures Edits("", "", 0)
  {
  }

  /** The value computed is the least number of single-character edits, for all strings. */
  lemma LeastEdits(a: string, b: string)
    ensures Edits(a, b, Distance(a, b)) && forall k :: Edits(a, b, k) ==> Distance(a, b) <= k
  {
    EnoughEdits(a, b);
    forall k | Edits(a, b, k)
      ensures Distance(a, b) <= k
    {
      NoFewerEdits(a, b, k);
    }
  }
}
