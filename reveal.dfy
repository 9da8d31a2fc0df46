/**
 * Reveal-on-scroll (`initScrollAnimations`): every animated element gets
 * `fade-in`, and the observer callback adds `visible` to the targets of the
 * entries that intersect the viewport.
 */
module Reveal {
  import opened Page

  /** One `IntersectionObserverEntry`: the index of its target among the observed elements. */
  datatype Entry = Entry(target: nat, isIntersecting: bool)

  /** Every entry names one of the observed elements. */
  predicate TargetsValid(classes: seq<set<string>>, entries: seq<Entry>) {
    forall e :: e in entries ==> e.target < |classes|
  }

  /** Some intersecting entry of the batch has element `i` as its target. */
  predicate Hit(entries: seq<Entry>, i: nat) {
    exists e :: e in entries && e.target == i && e.isIntersecting
  }

  /** The class lists of the observed elements after one callback over `entries`, in order. */
  function Revealed(classes: seq<set<string>>, entries: seq<Entry>): (r: seq<set<string>>)
    requires TargetsValid(classes, entries)
    ensures |r| == |classes|
  {
    if entries == [] then classes
    else
      var n := |entries|;
      var before := Revealed(classes, entries[..n - 1]);
      var e := entries[n - 1];
      if e.isIntersecting then before[e.target := before[e.target] + {Visible}] else before
  }

  /**
   * After a callback, an element's classes are its old classes plus
   * `visible` exactly when an intersecting entry targets it.
   */
  lemma {:induction false} RevealedAt(classes: seq<set<string>>, entries: seq<Entry>, i: nat)
    requires TargetsValid(classes, entries) && i < |classes|
    ensures Revealed(classes, entries)[i] == if Hit(entries, i) then classes[i] + {Visible} else classes[i]
  {
    if entries != [] {
      var n := |entries|;
      var init := entries[..n - 1];
      var e := entries[n - 1];
      assert forall x :: x in init ==> x in entries;
      RevealedAt(classes, init, i);
      assert forall x :: x in entries ==> x in init || x == e;
      if e.isIntersecting && e.target == i {
        assert Hit(entries, i);
      } else {
        assert Hit(entries, i) == Hit(init, i);
      }
    }
  }

  /** The callback only adds: no class is removed, so `visible` once set stays set. */
  lemma RevealMonotone(classes: seq<set<string>>, entries: seq<Entry>, i: nat)
    requires TargetsValid(classes, entries) && i < |classes|
    ensures classes[i] <= Revealed(classes, entries)[i]
    ensures Revealed(classes, entries)[i] - {Visible} == classes[i] - {Visible}
  {
    RevealedAt(classes, entries, i);
  }

  /** Entries that do not intersect leave their targets unchanged. */
  lemma NonIntersectingLeavesUnchanged(classes: seq<set<string>>, entries: seq<Entry>)
    requires TargetsValid(classes, entries)
    requires forall e :: e in entries ==> !e.isIntersecting
    ensures Revealed(classes, entries) == classes
  {
    forall i | 0 <= i < |classes| ensures Revealed(classes, entries)[i] == classes[i] {
      RevealedAt(classes, entries, i);
    }
  }

  /** The observer callback over one batch of entries. */
  method RevealOnIntersect(elements: array<set<string>>, entries: seq<Entry>)
    requires TargetsValid(elements[..], entries)
    modifies elements
    ensures elements[..] == Revealed(old(elements[..]), entries)
  {
    ghost var start := elements[..];
    var i := 0;
    while i < |entries|
      invariant 0 <= i <= |entries|
      invariant TargetsValid(start, entries[..i])
      invariant elements[..] == Revealed(start, entries[..i])
    {
      var entry := entries[i];
      assert entry in entries;
      assert entries[..i + 1][..i] == entries[..i];
      assert forall x :: x in entries[..i + 1] ==> x in entries;
      if entry.isIntersecting {
        elements[entry.target] := elements[entry.target] + {Visible};
      }
      i := i + 1;
    }
    assert entries[..i] == entries;
  }

  /** The set-up loop: every animated element gets the `fade-in` class. */
  method MarkFadeIn(elements: array<set<string>>)
    modifies elements
    ensures forall i :: 0 <= i < elements.Length ==> elements[i] == old(elements[i]) + {FadeIn}
  {
    var i := 0;
    while i < elements.Length
      invariant 0 <= i <= elements.Length
      invariant forall j :: 0 <= j < i ==> elements[j] == old(elements[j]) + {FadeIn}
      invariant forall j :: i <= j < elements.Length ==> elements[j] == old(elements[j])
    {
      elements[i] := elements[i] + {FadeIn};
      i := i + 1;
    }
  }
}
