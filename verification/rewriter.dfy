/** The text-edit model shared by the checks: Clang's `FixItHint`s and the `Rewriter` buffer
    the if/else check reads back from.

    Edits are kept in the coordinates of the ORIGINAL file. The rewriter is the list of
    edits recorded so far, in file order; a later edit overrides every earlier edit whose
    characters or insertion point lie strictly inside the range it rewrites, which is what
    lets an outer if/else replace a branch that an inner if/else already rewrote. Reading a
    range back applies the recorded edits that lie inside it to the original characters. */
module Rewriter {
  import opened Base

  /** A warning at an offset, carrying its fix-it hints. */
  datatype Diag = Diag(at: nat, fixes: seq<Edit>)

  /** `FixItHint::CreateInsertion`, `CreateRemoval` and `CreateReplacement`. */
  datatype Edit =
    | Insert(at: nat, text: string)
    | Remove(range: CharRange)
    | Replace(range: CharRange, text: string)
  {
    function Lo(): nat {
      if Insert? then at else range.lo
    }

    function Hi(): (h: nat)
      ensures Lo() <= h
    {
      if Insert? then at else range.hi
    }

    /** The characters the edit puts in place of [Lo(), Hi()). */
    function NewText(): string {
      match this
      case Insert(_, t) => t
      case Remove(_) => ""
      case Replace(_, t) => t
    }
  }

  /** Edits in file order and pairwise disjoint: each ends where or before the next begins. */
  ghost predicate Sorted(edits: seq<Edit>) {
    forall i, j :: 0 <= i < j < |edits| ==> edits[i].Hi() <= edits[j].Lo()
  }

  /** `e` rewrites a range that strictly contains `x`'s insertion point or shares characters
      with `x`'s range. */
  predicate Overlaps(x: Edit, e: Edit) {
    x.Lo() < e.Hi() && e.Lo() < x.Hi()
  }

  /** The three ways the rewriter selects edits: those ending by `pos`; those beyond an edit
      occupying [lo, hi); those inside the window [lo, hi]. */
  datatype Criterion =
    | EndsBy(pos: nat)
    | Beyond(lo: nat, hi: nat)
    | Inside(lo: nat, hi: nat)

  predicate Holds(p: Criterion, y: Edit) {
    match p
    case EndsBy(pos) => y.Hi() <= pos
    case Beyond(lo, hi) => lo < y.Hi() && hi <= y.Lo()
    case Inside(lo, hi) => InWindow(y, lo, hi)
  }

  /** `y` lies inside the window [lo, hi]; an insertion exactly at either end of the window
      belongs to the text around it, not to the window. */
  predicate InWindow(y: Edit, lo: nat, hi: nat) {
    lo <= y.Lo() && y.Hi() <= hi && (y.Lo() < y.Hi() || (lo < y.Lo() && y.Lo() < hi))
  }

  /** The edits of `s` that satisfy `p`, in order. */
  function Keep(s: seq<Edit>, p: Criterion): (r: seq<Edit>)
    ensures forall y {:trigger y in r} :: y in r <==> y in s && Holds(p, y)
    ensures |r| <= |s|
    decreases |s|
  {
    if s == [] then []
    else
      var rest := Keep(s[1..], p);
      assert forall y :: y in rest ==> y in s[1..];
      if Holds(p, s[0]) then [s[0]] + rest else rest
  }

  /** Filtering keeps file order. */
  lemma {:induction false} KeepSorted(s: seq<Edit>, p: Criterion)
    requires Sorted(s)
    ensures Sorted(Keep(s, p))
    decreases |s|
  {
    if s != [] {
      var rest := Keep(s[1..], p);
      assert Sorted(s[1..]);
      KeepSorted(s[1..], p);
      if Holds(p, s[0]) {
        var r := [s[0]] + rest;
        forall i, j | 0 <= i < j < |r|
          ensures r[i].Hi() <= r[j].Lo()
        {
          if i > 0 {
            assert r[i] == rest[i - 1] && r[j] == rest[j - 1];
          } else {
            var y := rest[j - 1];
            assert y in rest;
            assert y in s[1..];
            var k :| 0 <= k < |s[1..]| && s[1..][k] == y;
            assert s[k + 1] == y;
          }
        }
      }
    }
  }

  lemma {:induction false} KeepAppend(s: seq<Edit>, t: seq<Edit>, p: Criterion)
    ensures Keep(s + t, p) == Keep(s, p) + Keep(t, p)
    decreases |s|
  {
    if s == [] {
      assert s + t == t;
    } else {
      KeepAppend(s[1..], t, p);
      assert s == [s[0]] + s[1..];
      KeepAppendStep(s[0], s[1..], t, p);
    }
  }

  /** One step of `KeepAppend`: from `r` to `[x] + r`. */
  lemma KeepAppendStep(x: Edit, r: seq<Edit>, t: seq<Edit>, p: Criterion)
    requires Keep(r + t, p) == Keep(r, p) + Keep(t, p)
    ensures Keep([x] + r + t, p) == Keep([x] + r, p) + Keep(t, p)
  {
    ConsAssoc(x, r, t);
    if Holds(p, x) {
      KeepConsIn(x, r + t, p);
      KeepConsIn(x, r, p);
      Associate3([x], Keep(r, p), Keep(t, p), Keep([x] + r + t, p), Keep([x] + r, p));
    } else {
      KeepConsOut(x, r + t, p);
      KeepConsOut(x, r, p);
    }
  }

  lemma ConsAssoc(x: Edit, r: seq<Edit>, t: seq<Edit>)
    ensures [x] + r + t == [x] + (r + t)
  {
  }

  lemma KeepConsIn(x: Edit, r: seq<Edit>, p: Criterion)
    requires Holds(p, x)
    ensures Keep([x] + r, p) == [x] + Keep(r, p)
  {
    KeepCons(x, r, p);
  }

  lemma KeepConsOut(x: Edit, r: seq<Edit>, p: Criterion)
    requires !Holds(p, x)
    ensures Keep([x] + r, p) == Keep(r, p)
  {
    KeepCons(x, r, p);
  }

  lemma KeepCons(x: Edit, r: seq<Edit>, p: Criterion)
    ensures Keep([x] + r, p) == (if Holds(p, x) then [x] else []) + Keep(r, p)
  {
    var u := [x] + r;
    assert u[0] == x && u[1..] == r;
  }

  lemma Associate3(h: seq<Edit>, a: seq<Edit>, b: seq<Edit>, x: seq<Edit>, y: seq<Edit>)
    requires x == h + (a + b) && y == h + a
    ensures x == y + b
  {
  }

  /** Filtering twice by `q` then `p` is filtering by `p` once, when `p` implies `q`. */
  lemma {:induction false} KeepKeep(s: seq<Edit>, q: Criterion, p: Criterion)
    requires forall y :: Holds(p, y) ==> Holds(q, y)
    ensures Keep(Keep(s, q), p) == Keep(s, p)
    decreases |s|
  {
    if s != [] {
      KeepKeep(s[1..], q, p);
    }
  }

  lemma {:induction false} KeepNone(s: seq<Edit>, p: Criterion)
    requires forall y :: y in s ==> !Holds(p, y)
    ensures Keep(s, p) == []
    decreases |s|
  {
    if s != [] {
      KeepNone(s[1..], p);
    }
  }

  /** Record `e` in the rewriter `rw`: drop what it overlaps, keep file order. */
  function Record(rw: seq<Edit>, e: Edit): (r: seq<Edit>)
    ensures e in r
    ensures forall y :: y in r <==> y == e || (y in rw && !Overlaps(y, e))
    ensures Sorted(rw) ==> Sorted(r)
  {
    var before := Keep(rw, EndsBy(e.Lo()));
    var after := Keep(rw, Beyond(e.Lo(), e.Hi()));
    var r := before + [e] + after;
    assert forall y :: y in r <==> y in before || y == e || y in after;
    assert Sorted(rw) ==> Sorted(r) by {
      if Sorted(rw) {
        KeepSorted(rw, EndsBy(e.Lo()));
        KeepSorted(rw, Beyond(e.Lo(), e.Hi()));
        forall i, j | 0 <= i < j < |r|
          ensures r[i].Hi() <= r[j].Lo()
        {
          if j < |before| {
            assert r[i] == before[i] && r[j] == before[j];
          } else if i >= |before| + 1 {
            assert r[i] == after[i - |before| - 1] && r[j] == after[j - |before| - 1];
          } else {
            if i < |before| {
              assert r[i] == before[i] && r[i] in before;
            }
            if j > |before| {
              assert r[j] == after[j - |before| - 1] && r[j] in after;
            }
          }
        }
      }
    }
    r
  }

  /** Record each edit in turn. */
  function RecordAll(rw: seq<Edit>, edits: seq<Edit>): (r: seq<Edit>)
    ensures Sorted(rw) ==> Sorted(r)
    decreases |edits|
  {
    if edits == [] then rw else RecordAll(Record(rw, edits[0]), edits[1..])
  }

  lemma RecordThree(rw: seq<Edit>, x: Edit, y: Edit, z: Edit)
    ensures RecordAll(rw, [x, y, z]) == Record(Record(Record(rw, x), y), z)
  {
    var r1 := Record(rw, x);
    var r2 := Record(r1, y);
    var r3 := Record(r2, z);
    assert [z][1..] == [];
    assert RecordAll(r2, [z]) == RecordAll(r3, []) == r3;
    assert [y, z][1..] == [z];
    assert RecordAll(r1, [y, z]) == r3;
    assert [x, y, z][1..] == [y, z];
  }

  function Window(rw: seq<Edit>, lo: nat, hi: nat): (r: seq<Edit>)
    ensures forall y :: y in r <==> y in rw && InWindow(y, lo, hi)
  {
    Keep(rw, Inside(lo, hi))
  }

  /** The original characters [cur, hi) with `edits` applied, each edit in turn; an edit that
      does not lie ahead of the cursor and inside the range is not applied. */
  function Render(orig: string, edits: seq<Edit>, cur: nat, hi: nat): string
    requires cur <= hi <= |orig|
    decreases |edits|
  {
    if edits == [] then orig[cur..hi]
    else
      var e := edits[0];
      if cur <= e.Lo() && e.Hi() <= hi
      then orig[cur..e.Lo()] + e.NewText() + Render(orig, edits[1..], e.Hi(), hi)
      else Render(orig, edits[1..], cur, hi)
  }

  /** `Rewriter::getRewrittenText` of [lo, hi): the range as the recorded edits left it. */
  function Read(orig: string, rw: seq<Edit>, lo: nat, hi: nat): (s: string)
    ensures lo <= hi <= |orig| && Window(rw, lo, hi) == [] ==> s == orig[lo..hi]
  {
    var h := if hi <= |orig| then hi else |orig|;
    var l := if lo <= h then lo else h;
    Render(orig, Window(rw, l, h), l, h)
  }

  /** The whole rewritten file. */
  function Apply(orig: string, edits: seq<Edit>): string {
    Render(orig, edits, 0, |orig|)
  }

  /** Reading back exactly the range an edit rewrote gives the edit's text, whatever was
      recorded inside that range before. */
  lemma ReadRecorded(orig: string, rw: seq<Edit>, e: Edit)
    requires e.Lo() < e.Hi() <= |orig|
    ensures Read(orig, Record(rw, e), e.Lo(), e.Hi()) == e.NewText()
  {
    var lo, hi := e.Lo(), e.Hi();
    var before := Keep(rw, EndsBy(e.Lo()));
    var after := Keep(rw, Beyond(e.Lo(), e.Hi()));
    var w := Inside(lo, hi);
    KeepAppend(before + [e], after, w);
    KeepAppend(before, [e], w);
    KeepNone(before, w);
    KeepNone(after, w);
    assert Holds(w, e);
    assert Keep([e], w) == [e] + Keep([], w);
    assert Window(Record(rw, e), lo, hi) == [e];
    assert Render(orig, [e], lo, hi) == orig[lo..lo] + e.NewText() + Render(orig, [], hi, hi);
  }

  /** Recording an edit that lies wholly outside a window leaves the window's text alone. */
  lemma ReadOutside(orig: string, rw: seq<Edit>, e: Edit, lo: nat, hi: nat)
    requires lo <= hi <= |orig|
    requires hi <= e.Lo() || e.Hi() <= lo
    ensures Read(orig, Record(rw, e), lo, hi) == Read(orig, rw, lo, hi)
  {
    var bef := EndsBy(e.Lo());
    var aft := Beyond(e.Lo(), e.Hi());
    var before := Keep(rw, bef);
    var after := Keep(rw, aft);
    var w := Inside(lo, hi);
    KeepAppend(before + [e], after, w);
    KeepAppend(before, [e], w);
    assert !Holds(w, e);
    assert Keep([e], w) == Keep([], w) == [];
    if hi <= e.Lo() {
      KeepNone(after, w);
      KeepKeep(rw, bef, w);
      assert Window(Record(rw, e), lo, hi) == Window(rw, lo, hi);
    } else {
      KeepNone(before, w);
      KeepKeep(rw, aft, w);
      assert Window(Record(rw, e), lo, hi) == Window(rw, lo, hi);
    }
  }

  /** Filtering by `a` then `b` is filtering by `c` once, when on every edit of `s` both hold
      exactly when `c` does. */
  lemma {:induction false} KeepBoth(s: seq<Edit>, a: Criterion, b: Criterion, c: Criterion)
    requires forall y :: y in s ==> (Holds(a, y) && Holds(b, y) <==> Holds(c, y))
    ensures Keep(Keep(s, a), b) == Keep(s, c)
    decreases |s|
  {
    if s != [] {
      assert forall y :: y in s[1..] ==> y in s;
      KeepBoth(s[1..], a, b, c);
      if Holds(a, s[0]) {
        assert Keep(s, a) == [s[0]] + Keep(s[1..], a);
        assert Keep(s, a)[0] == s[0] && Keep(s, a)[1..] == Keep(s[1..], a);
      }
    }
  }

  /** Edits that all lie at or after `p` leave the characters [cur, p) as they are. */
  lemma {:induction false} RenderFrom(orig: string, edits: seq<Edit>, cur: nat, p: nat, hi: nat)
    requires cur <= p <= hi <= |orig|
    requires forall y :: y in edits ==> p <= y.Lo()
    ensures Render(orig, edits, cur, hi) == orig[cur..p] + Render(orig, edits, p, hi)
    decreases |edits|
  {
    if edits != [] {
      var e := edits[0];
      assert e in edits;
      if e.Hi() <= hi {
        var tail := e.NewText() + Render(orig, edits[1..], e.Hi(), hi);
        assert Render(orig, edits, cur, hi) == orig[cur..e.Lo()] + tail;
        assert Render(orig, edits, p, hi) == orig[p..e.Lo()] + tail;
        assert orig[cur..e.Lo()] == orig[cur..p] + orig[p..e.Lo()];
      } else {
        assert forall y :: y in edits[1..] ==> y in edits;
        RenderFrom(orig, edits[1..], cur, p, hi);
      }
    }
  }

  /** Rendering sorted edits that end by `p`, then edits that start at or after `p`, is
      rendering each part on its own side of `p`. */
  lemma {:induction false} RenderSplit(orig: string, first: seq<Edit>, second: seq<Edit>, cur: nat, p: nat, hi: nat)
    requires cur <= p <= hi <= |orig|
    requires Sorted(first)
    requires forall y :: y in first ==> cur <= y.Lo() && y.Hi() <= p
    requires forall y :: y in second ==> p <= y.Lo()
    ensures Render(orig, first + second, cur, hi) == Render(orig, first, cur, p) + Render(orig, second, p, hi)
    decreases |first|
  {
    if first == [] {
      assert first + second == second;
      RenderFrom(orig, second, cur, p, hi);
    } else {
      var e := first[0];
      RenderSplitHead(orig, first, second, cur, p, hi);
      RenderSplit(orig, first[1..], second, e.Hi(), p, hi);
      AppendAssoc(orig[cur..e.Lo()] + e.NewText(), Render(orig, first[1..], e.Hi(), p), Render(orig, second, p, hi));
    }
  }

  lemma AppendAssoc(a: string, x: string, y: string)
    ensures a + (x + y) == (a + x) + y
  {
  }

  /** The first of the sorted edits is applied on both sides, and the rest satisfy the
      same conditions from where it ends. */
  lemma RenderSplitHead(orig: string, first: seq<Edit>, second: seq<Edit>, cur: nat, p: nat, hi: nat)
    requires cur <= p <= hi <= |orig|
    requires Sorted(first) && first != []
    requires forall y :: y in first ==> cur <= y.Lo() && y.Hi() <= p
    ensures var e := first[0];
      && e.Hi() <= p && Sorted(first[1..])
      && (forall y :: y in first[1..] ==> e.Hi() <= y.Lo() && y.Hi() <= p)
      && Render(orig, first + second, cur, hi)
         == orig[cur..e.Lo()] + e.NewText() + Render(orig, first[1..] + second, e.Hi(), hi)
      && Render(orig, first, cur, p) == orig[cur..e.Lo()] + e.NewText() + Render(orig, first[1..], e.Hi(), p)
  {
    var e := first[0];
    assert (first + second)[0] == e && (first + second)[1..] == first[1..] + second;
    assert e in first;
    SortedTail(first);
    assert forall y :: y in first[1..] ==> y in first;
  }

  /** The edits after the first of a sorted list are sorted and start where it ends or
      later. */
  lemma SortedTail(s: seq<Edit>)
    requires Sorted(s) && s != []
    ensures Sorted(s[1..])
    ensures forall y :: y in s[1..] ==> s[0].Hi() <= y.Lo()
  {
    forall y | y in s[1..]
      ensures s[0].Hi() <= y.Lo()
    {
      var k :| 0 <= k < |s[1..]| && s[1..][k] == y;
      assert s[k + 1] == y;
    }
    forall i, j | 0 <= i < j < |s[1..]|
      ensures s[1..][i].Hi() <= s[1..][j].Lo()
    {
      assert s[1..][i] == s[i + 1] && s[1..][j] == s[j + 1];
    }
  }

  /** Reading a window around a fresh insertion point: the text before the point, the
      inserted text, then the text after it, as the rewriter had them, when no recorded
      edit reaches the point. */
  lemma {:induction false} ReadAroundInsert(orig: string, rw: seq<Edit>, p: nat, t: string, lo: nat, hi: nat)
    requires Sorted(rw)
    requires lo < p < hi <= |orig|
    requires forall y :: y in rw ==> y.Hi() < p || p < y.Lo()
    ensures Read(orig, Record(rw, Insert(p, t)), lo, hi) == Read(orig, rw, lo, p) + t + Read(orig, rw, p, hi)
  {
    var e := Insert(p, t);
    var left, right := Window(rw, lo, p), Window(rw, p, hi);
    WindowAroundInsert(rw, p, t, lo, hi);
    ReadOfWindow(orig, Record(rw, e), lo, hi, left + ([e] + right));
    ReadOfWindow(orig, rw, lo, p, left);
    ReadOfWindow(orig, rw, p, hi, right);
    KeepSorted(rw, Inside(lo, p));
    SidesOfInsert(rw, e, lo, hi);
    RenderSplit(orig, left, [e] + right, lo, p, hi);
    RenderInsertFirst(orig, e, right, p, hi);
    AppendAssoc(Render(orig, left, lo, p), t, Render(orig, right, p, hi));
  }

  /** The edits the window keeps before an insertion point lie before it; the insertion and
      those after it start at or after it. */
  lemma SidesOfInsert(rw: seq<Edit>, e: Edit, lo: nat, hi: nat)
    requires e.Insert? && lo < e.at < hi
    ensures forall y :: y in Window(rw, lo, e.at) ==> lo <= y.Lo() && y.Hi() <= e.at
    ensures forall y :: y in [e] + Window(rw, e.at, hi) ==> e.at <= y.Lo()
  {
    forall y | y in [e] + Window(rw, e.at, hi)
      ensures e.at <= y.Lo()
    {
      if y != e {
        assert y in Window(rw, e.at, hi);
      }
    }
  }

  /** An insertion at the cursor comes first. */
  lemma RenderInsertFirst(orig: string, e: Edit, rest: seq<Edit>, p: nat, hi: nat)
    requires e.Insert? && e.at == p && p <= hi <= |orig|
    ensures Render(orig, [e] + rest, p, hi) == e.text + Render(orig, rest, p, hi)
  {
    assert ([e] + rest)[0] == e && ([e] + rest)[1..] == rest;
    assert orig[p..p] == "";
  }

  /** The window around a fresh insertion point holds the edits before it, the insertion and
      the edits after it. */
  lemma WindowAroundInsert(rw: seq<Edit>, p: nat, t: string, lo: nat, hi: nat)
    requires lo < p < hi
    requires forall y :: y in rw ==> y.Hi() < p || p < y.Lo()
    ensures Window(Record(rw, Insert(p, t)), lo, hi) == Window(rw, lo, p) + ([Insert(p, t)] + Window(rw, p, hi))
  {
    WindowOfRecord(rw, Insert(p, t), lo, hi);
    WindowBeforePoint(rw, p, lo, hi);
    WindowAfterPoint(rw, p, lo, hi);
    Associate(Window(rw, lo, p), Insert(p, t), Window(rw, p, hi));
  }

  lemma Associate(a: seq<Edit>, e: Edit, b: seq<Edit>)
    ensures a + [e] + b == a + ([e] + b)
  {
  }

  /** The window after recording an edit inside it: the edits kept before it, the edit, and
      those kept after it, each filtered to the window. */
  lemma WindowOfRecord(rw: seq<Edit>, e: Edit, lo: nat, hi: nat)
    requires InWindow(e, lo, hi)
    ensures var w := Inside(lo, hi);
      Window(Record(rw, e), lo, hi)
        == Keep(Keep(rw, EndsBy(e.Lo())), w) + [e] + Keep(Keep(rw, Beyond(e.Lo(), e.Hi())), w)
  {
    var before := Keep(rw, EndsBy(e.Lo()));
    var after := Keep(rw, Beyond(e.Lo(), e.Hi()));
    var w := Inside(lo, hi);
    assert Record(rw, e) == before + [e] + after;
    KeepAppend(before + [e], after, w);
    KeepAppend(before, [e], w);
    KeepOne(e, w);
  }

  lemma KeepOne(e: Edit, w: Criterion)
    requires Holds(w, e)
    ensures Keep([e], w) == [e]
  {
    assert [e][1..] == [];
  }

  lemma WindowBeforePoint(rw: seq<Edit>, p: nat, lo: nat, hi: nat)
    requires lo < p < hi
    requires forall y :: y in rw ==> y.Hi() < p || p < y.Lo()
    ensures Keep(Keep(rw, EndsBy(p)), Inside(lo, hi)) == Window(rw, lo, p)
  {
    KeepBoth(rw, EndsBy(p), Inside(lo, hi), Inside(lo, p));
  }

  lemma WindowAfterPoint(rw: seq<Edit>, p: nat, lo: nat, hi: nat)
    requires lo < p < hi
    requires forall y :: y in rw ==> y.Hi() < p || p < y.Lo()
    ensures Keep(Keep(rw, Beyond(p, p)), Inside(lo, hi)) == Window(rw, p, hi)
  {
    KeepBoth(rw, Beyond(p, p), Inside(lo, hi), Inside(p, hi));
  }

  lemma {:induction false} KeepAll(s: seq<Edit>, p: Criterion)
    requires forall y :: y in s ==> Holds(p, y)
    ensures Keep(s, p) == s
    decreases |s|
  {
    if s != [] {
      assert forall y :: y in s[1..] ==> y in s;
      KeepAll(s[1..], p);
      assert s == [s[0]] + s[1..];
    }
  }

  /** Replacing a block [l, h) by a removal and an insertion at `l`, then removing the range
      [a, b) before it: reading [a, h) back gives what lay between the two ranges and the
      inserted text, when nothing recorded before reaches from `a` through `l`. */
  lemma {:induction false} ReadMovedBlock(orig: string, rw: seq<Edit>, x: CharRange, el: CharRange, m: string)
    requires x.lo < x.hi <= el.lo < el.hi <= |orig|
    requires forall y :: y in rw ==> y.Hi() < x.lo || el.lo < y.Lo()
    ensures Read(orig, RecordAll(rw, [Remove(el), Insert(el.lo, m), Remove(x)]), x.lo, el.hi)
      == orig[x.hi..el.lo] + m
  {
    var w := [Remove(x), Insert(el.lo, m), Remove(el)];
    var rr := RecordAll(rw, [Remove(el), Insert(el.lo, m), Remove(x)]);
    MovedWindow(rw, x, el, m);
    ReadOfWindow(orig, rr, x.lo, el.hi, w);
    RenderMoved(orig, x, el, m);
  }

  /** After the three edits, the window from `a` through the block holds exactly them. */
  lemma MovedWindow(rw: seq<Edit>, x: CharRange, el: CharRange, m: string)
    requires x.lo < x.hi <= el.lo < el.hi
    requires forall y :: y in rw ==> y.Hi() < x.lo || el.lo < y.Lo()
    ensures Window(RecordAll(rw, [Remove(el), Insert(el.lo, m), Remove(x)]), x.lo, el.hi)
      == [Remove(x), Insert(el.lo, m), Remove(el)]
  {
    var l, h := el.lo, el.hi;
    var before := Keep(rw, EndsBy(l));
    var after := Keep(rw, Beyond(l, h));
    MovedRecords(rw, x, el, m);
    var w := [Remove(x), Insert(l, m), Remove(el)];
    assert w[0] == Remove(x) && w[1..] == [Insert(l, m), Remove(el)];
    KeptApart(rw, x.lo, l, h);
    MovedInWindow(x, el, m);
    WindowOfMoved(before, after, w, x.lo, h);
  }

  /** What the rewriter keeps on either side of the block [l, h) lies before `a` or after `h`. */
  lemma KeptApart(rw: seq<Edit>, a: nat, l: nat, h: nat)
    requires a <= l < h
    requires forall y :: y in rw ==> y.Hi() < a || l < y.Lo()
    ensures forall y :: y in Keep(rw, EndsBy(l)) ==> y.Hi() < a
    ensures forall y :: y in Keep(rw, Beyond(l, h)) ==> h <= y.Lo()
  {
  }

  lemma MovedInWindow(x: CharRange, el: CharRange, m: string)
    requires x.lo < x.hi <= el.lo < el.hi
    ensures forall y :: y in [Remove(x), Insert(el.lo, m), Remove(el)] ==> InWindow(y, x.lo, el.hi)
  {
  }

  lemma ReadOfWindow(orig: string, rw: seq<Edit>, lo: nat, hi: nat, w: seq<Edit>)
    requires lo <= hi <= |orig| && Window(rw, lo, hi) == w
    ensures Read(orig, rw, lo, hi) == Render(orig, w, lo, hi)
  {
  }

  /** The rewriter after the three edits: what it kept before the block, the removal of
      [a, b), the insertion, the block's removal, and what it kept after the block. */
  lemma MovedRecords(rw: seq<Edit>, x: CharRange, el: CharRange, m: string)
    requires x.lo < x.hi <= el.lo < el.hi
    requires forall y :: y in rw ==> y.Hi() < x.lo || el.lo < y.Lo()
    ensures RecordAll(rw, [Remove(el), Insert(el.lo, m), Remove(x)])
      == Keep(rw, EndsBy(el.lo)) + [Remove(x)] + ([Insert(el.lo, m), Remove(el)] + Keep(rw, Beyond(el.lo, el.hi)))
  {
    var l, h := el.lo, el.hi;
    var gone, moved, cut := Remove(el), Insert(l, m), Remove(x);
    var before := Keep(rw, EndsBy(l));
    var after := Keep(rw, Beyond(l, h));
    RecordThree(rw, gone, moved, cut);
    assert Record(rw, gone) == before + [gone] + after;
    assert forall y :: y in before ==> y.Hi() < x.lo;
    MovedAfterRemoval(before, after, gone, moved);
    CutBeforeMoved(before, after, gone, moved, cut);
  }

  /** Recording the insertion at the start of a removed block puts it just before the
      removal. */
  lemma MovedAfterRemoval(before: seq<Edit>, after: seq<Edit>, gone: Edit, moved: Edit)
    requires moved.Insert? && gone.Remove? && moved.at == gone.Lo() < gone.Hi()
    requires forall y :: y in before ==> y.Hi() <= gone.Lo()
    requires forall y :: y in after ==> gone.Lo() < y.Hi() && gone.Hi() <= y.Lo()
    ensures Record(before + [gone] + after, moved) == before + [moved, gone] + after
  {
    var l := gone.Lo();
    var s := before + [gone] + after;
    RemovalEndsBy(before, after, gone);
    RemovalBeyond(before, after, gone);
    RecordIs(s, moved);
    Regroup(before, moved, [gone], after);
  }

  lemma RemovalEndsBy(before: seq<Edit>, after: seq<Edit>, gone: Edit)
    requires gone.Lo() < gone.Hi()
    requires forall y :: y in before ==> y.Hi() <= gone.Lo()
    requires forall y :: y in after ==> gone.Lo() < y.Hi()
    ensures Keep(before + [gone] + after, EndsBy(gone.Lo())) == before + [] + []
  {
    var l := gone.Lo();
    KeepThree(before, [gone], after, EndsBy(l));
    KeepAll(before, EndsBy(l));
    KeepNone([gone], EndsBy(l));
    KeepNone(after, EndsBy(l));
  }

  lemma RemovalBeyond(before: seq<Edit>, after: seq<Edit>, gone: Edit)
    requires gone.Lo() < gone.Hi()
    requires forall y :: y in before ==> y.Hi() <= gone.Lo()
    requires forall y :: y in after ==> gone.Lo() < y.Hi() && gone.Hi() <= y.Lo()
    ensures Keep(before + [gone] + after, Beyond(gone.Lo(), gone.Lo())) == [] + [gone] + after
  {
    var l := gone.Lo();
    KeepThree(before, [gone], after, Beyond(l, l));
    KeepNone(before, Beyond(l, l));
    KeepAll([gone], Beyond(l, l));
    KeepAll(after, Beyond(l, l));
  }

  /** Recording the removal of [a, b), which ends by the moved block's start, puts it just
      before the insertion. */
  lemma CutBeforeMoved(before: seq<Edit>, after: seq<Edit>, gone: Edit, moved: Edit, cut: Edit)
    requires moved.Insert? && gone.Remove? && cut.Remove?
    requires moved.at == gone.Lo() < gone.Hi() && cut.Lo() < cut.Hi() <= gone.Lo()
    requires forall y :: y in before ==> y.Hi() < cut.Lo()
    requires forall y :: y in after ==> gone.Lo() < y.Hi() && gone.Hi() <= y.Lo()
    ensures Record(before + [moved, gone] + after, cut) == before + [cut] + ([moved, gone] + after)
  {
    var a, b := cut.Lo(), cut.Hi();
    var mid := [moved, gone];
    var s := before + mid + after;
    KeepThree(before, mid, after, EndsBy(a));
    KeepAll(before, EndsBy(a));
    KeepNone(mid, EndsBy(a));
    KeepNone(after, EndsBy(a));
    KeepThree(before, mid, after, Beyond(a, b));
    KeepNone(before, Beyond(a, b));
    KeepAll(mid, Beyond(a, b));
    KeepAll(after, Beyond(a, b));
    RecordIs(s, cut);
    Regroup(before, cut, mid, after);
  }

  /** Filtering three parts to everything, nothing, everything (or the reverse). */
  lemma Regroup(a: seq<Edit>, e: Edit, m: seq<Edit>, b: seq<Edit>)
    ensures a + [] + [] + [e] + ([] + m + b) == a + [e] + (m + b)
    ensures [] + [] + b == b && a + [] + [] == a
    ensures a + [e] + ([] + m + b) == a + ([e] + m) + b
  {
  }

  lemma KeepThree(a: seq<Edit>, b: seq<Edit>, c: seq<Edit>, p: Criterion)
    ensures Keep(a + b + c, p) == Keep(a, p) + Keep(b, p) + Keep(c, p)
  {
    KeepAppend(a + b, c, p);
    KeepAppend(a, b, p);
  }

  /** `Record` spelled out: the edits ending by `e`'s start, `e`, the edits beyond it. */
  lemma RecordIs(rw: seq<Edit>, e: Edit)
    ensures Record(rw, e) == Keep(rw, EndsBy(e.Lo())) + [e] + Keep(rw, Beyond(e.Lo(), e.Hi()))
  {
  }

  /** Only the three edits lie in the window [a, h). */
  lemma WindowOfMoved(before: seq<Edit>, after: seq<Edit>, w: seq<Edit>, a: nat, h: nat)
    requires forall y :: y in before ==> y.Hi() < a
    requires forall y :: y in after ==> h <= y.Lo()
    requires forall y :: y in w ==> InWindow(y, a, h)
    requires |w| == 3
    ensures Window(before + [w[0]] + (w[1..] + after), a, h) == w
  {
    var win := Inside(a, h);
    SplitHead(before, w, after);
    KeepThree(before, w, after, win);
    KeepNone(before, win);
    KeepAll(w, win);
    KeepNone(after, win);
  }

  lemma SplitHead(a: seq<Edit>, w: seq<Edit>, b: seq<Edit>)
    requires w != []
    ensures a + [w[0]] + (w[1..] + b) == a + w + b
  {
    assert w == [w[0]] + w[1..];
  }

  /** Rendering the removal of [a, b), the insertion at `l` and the removal of [l, h). */
  lemma RenderMoved(orig: string, x: CharRange, el: CharRange, m: string)
    requires x.lo < x.hi <= el.lo < el.hi <= |orig|
    ensures Render(orig, [Remove(x), Insert(el.lo, m), Remove(el)], x.lo, el.hi) == orig[x.hi..el.lo] + m
  {
    var w := [Remove(x), Insert(el.lo, m), Remove(el)];
    assert w[1..] == [Insert(el.lo, m), Remove(el)] && w[1..][1..] == [Remove(el)] && w[1..][1..][1..] == [];
    assert Render(orig, w[1..][1..], el.lo, el.hi) == orig[el.lo..el.lo] + "" + orig[el.hi..el.hi];
    assert Render(orig, w[1..], x.hi, el.hi) == orig[x.hi..el.lo] + m + Render(orig, w[1..][1..], el.lo, el.hi);
    assert Render(orig, w, x.lo, el.hi) == orig[x.lo..x.lo] + "" + Render(orig, w[1..], x.hi, el.hi);
  }
}
