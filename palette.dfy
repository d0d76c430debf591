/**
 * Palette construction of the TinyImage encoder: the colour with the most
 * segments takes slot 0, every other colour follows in first-seen order.
 */
module Palette {

  /** Java's Integer.MAX_VALUE, the leader the tally starts from. */
  const IntegerMaxValue: int := 0x7fff_ffff

  /** The running pair (highestSegmentCount, rgbWithHighestSegmentCount) of the tally loop. */
  datatype Leader = Leader(count: int, rgb: int)

  /**
   * The tally after the segment colours `rgbs` have been counted in order.
   * A colour takes the lead only when its count so far is strictly greater
   * than the leader's.
   */
  function Tally(rgbs: seq<int>): Leader
  {
    if rgbs == [] then Leader(-1, IntegerMaxValue)
    else
      var prev := Tally(rgbs[..|rgbs| - 1]);
      var c := rgbs[|rgbs| - 1];
      var count := multiset(rgbs)[c];
      if count > prev.count then Leader(count, c) else prev
  }

  /** The tally after one more segment colour. */
  lemma TallyStep(rgbs: seq<int>, k: nat)
    requires k < |rgbs|
    ensures var prev := Tally(rgbs[..k]);
      var count := multiset(rgbs[..k + 1])[rgbs[k]];
      Tally(rgbs[..k + 1]) == if count > prev.count then Leader(count, rgbs[k]) else prev
  {
    assert rgbs[..k + 1][..k] == rgbs[..k];
  }

  /**
   * ArrayList.indexOf: the first position of `c` in `p`, or -1 when `c`
   * is absent.
   */
  function IndexOf(p: seq<int>, c: int): (k: int)
    ensures c in p ==> 0 <= k < |p| && p[k] == c && forall i :: 0 <= i < k ==> p[i] != c
    ensures c !in p ==> k == -1
  {
    if p == [] then -1
    else if p[0] == c then 0
    else
      var k := IndexOf(p[1..], c);
      if k == -1 then -1 else k + 1
  }

  /** The palette `p` after every colour of `rgbs` not yet in it has been appended, in order. */
  function Fill(p: seq<int>, rgbs: seq<int>): seq<int>
  {
    if rgbs == [] then p
    else
      var q := Fill(p, rgbs[..|rgbs| - 1]);
      var c := rgbs[|rgbs| - 1];
      if c in q then q else q + [c]
  }

  /** The palette after one more segment colour. */
  lemma FillStep(p: seq<int>, rgbs: seq<int>, k: nat)
    requires k < |rgbs|
    ensures var q := Fill(p, rgbs[..k]);
      Fill(p, rgbs[..k + 1]) == if rgbs[k] in q then q else q + [rgbs[k]]
  {
    assert rgbs[..k + 1][..k] == rgbs[..k];
  }

  /** The palette built from the segment colours: the leader first, then the first-seen fill. */
  function Pallet(rgbs: seq<int>): seq<int>
  {
    Fill([Tally(rgbs).rgb], rgbs)
  }

  ghost predicate NoDuplicates(p: seq<int>)
  {
    forall i, j :: 0 <= i < j < |p| ==> p[i] != p[j]
  }

  /**
   * The count the tally loop computes for segment `i`: how many of the
   * segments 0..i have segment i's colour.
   */
  function Running(rgbs: seq<int>, i: int): int
    requires 0 <= i < |rgbs|
  {
    multiset(rgbs[..i + 1])[rgbs[i]]
  }

  /**
   * The leader holds the largest segment count; it is the colour of the
   * first segment, in scan order, at which some colour's count reached that
   * maximum.
   */
  lemma TallyLeader(rgbs: seq<int>)
    ensures rgbs == [] ==> Tally(rgbs) == Leader(-1, IntegerMaxValue)
    ensures rgbs != [] ==>
      var t := Tally(rgbs);
      && t.rgb in rgbs
      && t.count == multiset(rgbs)[t.rgb]
      && (forall c :: multiset(rgbs)[c] <= t.count)
      && exists j :: 0 <= j < |rgbs| && rgbs[j] == t.rgb && Running(rgbs, j) == t.count
                   && forall i :: 0 <= i < j ==> Running(rgbs, i) < t.count
  {
    if rgbs != [] {
      TallyMax(rgbs);
      TallyFirst(rgbs);
    }
  }

  /** The leader of a non-empty tally is a segment colour with the largest count. */
  lemma {:induction false} TallyMax(rgbs: seq<int>)
    requires rgbs != []
    ensures var t := Tally(rgbs);
      && t.rgb in rgbs
      && t.count == multiset(rgbs)[t.rgb]
      && forall c :: multiset(rgbs)[c] <= t.count
  {
    var n := |rgbs|;
    var rgbs' := rgbs[..n - 1];
    var c := rgbs[n - 1];
    assert rgbs == rgbs' + [c];
    assert multiset(rgbs) == multiset(rgbs') + multiset{c};
    var t := Tally(rgbs);
    if rgbs' == [] {
      assert multiset(rgbs) == multiset{c};
    } else {
      TallyMax(rgbs');
      var prev := Tally(rgbs');
      if multiset(rgbs)[c] > prev.count {
        assert t == Leader(multiset(rgbs)[c], c);
      } else {
        assert t == prev && t.rgb != c;
      }
    }
  }

  /** The leader is the colour of the first segment whose running count reached the maximum. */
  lemma {:induction false} TallyFirst(rgbs: seq<int>)
    requires rgbs != []
    ensures var t := Tally(rgbs);
      exists j :: 0 <= j < |rgbs| && rgbs[j] == t.rgb && Running(rgbs, j) == t.count
                && forall i :: 0 <= i < j ==> Running(rgbs, i) < t.count
  {
    var n := |rgbs|;
    var rgbs' := rgbs[..n - 1];
    var c := rgbs[n - 1];
    var t := Tally(rgbs);
    assert rgbs[..n] == rgbs;
    assert Running(rgbs, n - 1) == multiset(rgbs)[c];
    if rgbs' == [] {
      assert rgbs == [c] && multiset(rgbs)[c] == 1;
      assert Tally(rgbs') == Leader(-1, IntegerMaxValue);
      assert t == Leader(1, c);
    } else {
      TallyFirst(rgbs');
      TallyMax(rgbs');
      RunningPrefix(rgbs);
      var prev := Tally(rgbs');
      if multiset(rgbs)[c] > prev.count {
        assert t == Leader(multiset(rgbs)[c], c);
        forall i | 0 <= i < n - 1
          ensures Running(rgbs, i) < t.count
        {
          RunningBound(rgbs', i);
        }
        assert rgbs[n - 1] == t.rgb && Running(rgbs, n - 1) == t.count;
      } else {
        assert t == prev;
        var j :| 0 <= j < |rgbs'| && rgbs'[j] == t.rgb && Running(rgbs', j) == t.count
                 && forall i :: 0 <= i < j ==> Running(rgbs', i) < t.count;
        assert rgbs[j] == t.rgb && Running(rgbs, j) == t.count;
      }
    }
  }

  /** Counting the last segment does not change the counts the loop saw for the earlier ones. */
  lemma RunningPrefix(rgbs: seq<int>)
    requires rgbs != []
    ensures forall i :: 0 <= i < |rgbs| - 1 ==> Running(rgbs, i) == Running(rgbs[..|rgbs| - 1], i)
  {
    forall i | 0 <= i < |rgbs| - 1
      ensures Running(rgbs, i) == Running(rgbs[..|rgbs| - 1], i)
    {
      assert rgbs[..i + 1] == rgbs[..|rgbs| - 1][..i + 1];
    }
  }

  /** A running count never exceeds the final count of that colour. */
  lemma RunningBound(rgbs: seq<int>, i: int)
    requires 0 <= i < |rgbs|
    ensures Running(rgbs, i) <= multiset(rgbs)[rgbs[i]]
  {
    assert rgbs == rgbs[..i + 1] + rgbs[i + 1..];
  }

  /**
   * Filling keeps the initial palette as a prefix and never duplicates a
   * colour; afterwards the palette holds exactly the initial colours and
   * those of `rgbs`, the appended ones ordered by first sighting.
   */
  lemma {:induction false} FillShape(p: seq<int>, rgbs: seq<int>)
    requires NoDuplicates(p)
    ensures var f := Fill(p, rgbs);
      && |p| <= |f|
      && f[..|p|] == p
      && NoDuplicates(f)
      && (forall c :: c in f <==> c in p || c in rgbs)
      && (forall i, j :: |p| <= i < j < |f| ==> IndexOf(rgbs, f[i]) < IndexOf(rgbs, f[j]))
  {
    if rgbs != [] {
      var n := |rgbs|;
      var rgbs' := rgbs[..n - 1];
      var c := rgbs[n - 1];
      assert rgbs == rgbs' + [c];
      FillShape(p, rgbs');
      var q, f := Fill(p, rgbs'), Fill(p, rgbs);
      forall e | e in rgbs'
        ensures IndexOf(rgbs, e) == IndexOf(rgbs', e) < n - 1
      {
        IndexOfAppend(rgbs', c, e);
      }
      forall i | |p| <= i < |q|
        ensures q[i] in rgbs'
      {
        assert q[i] in q;
      }
      if c !in q {
        assert f == q + [c];
        assert c !in rgbs';
        IndexOfAppend(rgbs', c, c);
        assert f[..|p|] == q[..|p|];
      }
    }
  }

  /** Appending one element moves no earlier first occurrence; a new element is found at the end. */
  lemma IndexOfAppend(s: seq<int>, c: int, e: int)
    ensures e in s ==> IndexOf(s + [c], e) == IndexOf(s, e)
    ensures e !in s && e == c ==> IndexOf(s + [c], e) == |s|
  {
    if e in s {
      IndexOfPrefix(s, [c], e);
    } else if e == c {
      assert (s + [c])[|s|] == e;
    }
  }

  /**
   * The palette starts with the leader, holds each colour once, holds
   * exactly the leader and the segment colours, and lists the colours after
   * slot 0 in the order the segments first show them.
   */
  lemma PalletShape(rgbs: seq<int>)
    ensures var p := Pallet(rgbs);
      && |p| >= 1
      && p[0] == Tally(rgbs).rgb
      && NoDuplicates(p)
      && (forall c :: c in p <==> c == p[0] || c in rgbs)
      && (forall i, j :: 1 <= i < j < |p| ==> IndexOf(rgbs, p[i]) < IndexOf(rgbs, p[j]))
  {
    var init := [Tally(rgbs).rgb];
    FillShape(init, rgbs);
    assert Pallet(rgbs)[..1] == init;
  }

  /** For a non-empty image the palette is no longer than the segment list: it holds each segment colour once. */
  lemma PalletSize(rgbs: seq<int>)
    requires rgbs != []
    ensures |Pallet(rgbs)| <= |rgbs|
  {
    var p := Pallet(rgbs);
    PalletShape(rgbs);
    TallyLeader(rgbs);
    NoDuplicatesCard(p);
    SetCard(rgbs);
    var a, b := set c | c in p, set c | c in rgbs;
    assert a <= b;
    assert b == a + (b - a) && a * (b - a) == {};
  }

  /** Once a colour is in the palette, growing the palette by appending keeps its slot. */
  lemma IndexOfPrefix(p: seq<int>, q: seq<int>, c: int)
    requires c in p
    ensures IndexOf(p + q, c) == IndexOf(p, c)
  {
    var k := IndexOf(p, c);
    assert (p + q)[k] == c;
    assert forall i :: 0 <= i < k ==> (p + q)[i] == p[i];
  }

  /** A sequence without duplicates has as many elements as distinct values. */
  lemma {:induction false} NoDuplicatesCard(p: seq<int>)
    requires NoDuplicates(p)
    ensures |set c | c in p| == |p|
  {
    if p != [] {
      var p' := p[..|p| - 1];
      NoDuplicatesCard(p');
      assert p == p' + [p[|p| - 1]];
      assert (set c | c in p) == (set c | c in p') + {p[|p| - 1]};
    }
  }

  /** A sequence has at most as many distinct values as elements. */
  lemma {:induction false} SetCard(s: seq<int>)
    ensures |set c | c in s| <= |s|
  {
    if s != [] {
      var s' := s[..|s| - 1];
      SetCard(s');
      assert s == s' + [s[|s| - 1]];
      assert (set c | c in s) == (set c | c in s') + {s[|s| - 1]};
    }
  }
}
