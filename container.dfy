/**
 * A container of net elements: places, transitions, the arcs leaving and
 * entering them, and the arcs kept after cleaning, i.e. those that run from
 * one of the places to one of the transitions.
 */
module Containers {
  import opened Nodes
  import opened Arcs

  /** The test container_clean applies to each arc: it leaves one of the places and enters one of the transitions. */
  predicate Connects(a: Arc, places: seq<Node>, transitions: seq<Node>)
    reads a`source, a`target
  {
    a.source in places && a.target in transitions
  }

  /** The arcs of xs that pass the test, in their order in xs and with their repetitions. */
  function Connecting(xs: seq<Arc>, places: seq<Node>, transitions: seq<Node>): seq<Arc>
    reads xs`source, xs`target
  {
    if xs == [] then []
    else
      var front := xs[..|xs| - 1];
      var last := xs[|xs| - 1];
      Connecting(front, places, transitions) + (if Connects(last, places, transitions) then [last] else [])
  }

  /** An arc is kept exactly when it is one of xs and passes the test. */
  lemma {:induction false} ConnectingSpec(xs: seq<Arc>, places: seq<Node>, transitions: seq<Node>)
    ensures forall a <- Connecting(xs, places, transitions) :: a in xs && Connects(a, places, transitions)
    ensures forall a <- xs :: Connects(a, places, transitions) ==> a in Connecting(xs, places, transitions)
  {
    if xs != [] {
      var front := xs[..|xs| - 1];
      ConnectingSpec(front, places, transitions);
      assert xs == front + [xs[|xs| - 1]];
    }
  }

  /** Each arc that passes the test is kept as many times as xs holds it, and no other arc is kept. */
  lemma {:induction false} ConnectingCount(xs: seq<Arc>, places: seq<Node>, transitions: seq<Node>, a: Arc)
    ensures multiset(Connecting(xs, places, transitions))[a] ==
      if Connects(a, places, transitions) then multiset(xs)[a] else 0
  {
    if xs != [] {
      var front := xs[..|xs| - 1];
      ConnectingCount(front, places, transitions, a);
      assert xs == front + [xs[|xs| - 1]];
    }
  }

  /** Filtering a concatenation filters each part: the order of the scanned arcs is kept. */
  lemma {:induction false} ConnectingAppend(xs: seq<Arc>, ys: seq<Arc>, places: seq<Node>, transitions: seq<Node>)
    ensures Connecting(xs + ys, places, transitions) == Connecting(xs, places, transitions) + Connecting(ys, places, transitions)
  {
    if ys != [] {
      var front := ys[..|ys| - 1];
      ConnectingAppend(xs, front, places, transitions);
      assert (xs + ys)[..|xs + ys| - 1] == xs + front;
    } else {
      assert xs + ys == xs;
    }
  }

  class Container {
    var places: seq<Node>
    var transitions: seq<Node>
    /** Arcs leaving the nodes, and arcs entering them. */
    var sources: seq<Arc>
    var targets: seq<Arc>
    /** The arcs collected by cleaning. */
    var arcs: seq<Arc>

    /** create_container: every list starts empty. */
    constructor ()
      ensures places == [] && transitions == [] && sources == [] && targets == [] && arcs == []
    {
      places, transitions := [], [];
      sources, targets := [], [];
      arcs := [];
    }

    /**
     * container_clean: the leaving arcs, then the entering arcs, are scanned
     * in order and each one from a place of the container to a transition of
     * the container is appended to arcs.
     */
    method Clean()
      modifies this`arcs
      ensures arcs == old(arcs) + Connecting(sources, places, transitions) + Connecting(targets, places, transitions)
    {
      var collected := arcs;
      var i := 0;
      while i < |sources|
        invariant 0 <= i <= |sources|
        invariant collected == arcs + Connecting(sources[..i], places, transitions)
      {
        assert sources[..i + 1][..i] == sources[..i];
        var arc := sources[i];
        if arc.source in places && arc.target in transitions {
          collected := collected + [arc];
        }
        i := i + 1;
      }
      assert sources[..|sources|] == sources;
      var j := 0;
      while j < |targets|
        invariant 0 <= j <= |targets|
        invariant collected == arcs + Connecting(sources, places, transitions) + Connecting(targets[..j], places, transitions)
      {
        assert targets[..j + 1][..j] == targets[..j];
        var arc := targets[j];
        if arc.source in places && arc.target in transitions {
          collected := collected + [arc];
        }
        j := j + 1;
      }
      assert targets[..|targets|] == targets;
      arcs := collected;
    }
  }

  /**
   * What one cleaning adds, counted per arc: an arc that passes the test is
   * added once for each time it is among the leaving arcs and once for each
   * time it is among the entering arcs, so an arc in both lists is added twice.
   */
  lemma CleanedCount(sources: seq<Arc>, targets: seq<Arc>, places: seq<Node>, transitions: seq<Node>, a: Arc)
    ensures multiset(Connecting(sources, places, transitions) + Connecting(targets, places, transitions))[a] ==
      if Connects(a, places, transitions) then multiset(sources)[a] + multiset(targets)[a] else 0
  {
    ConnectingCount(sources, places, transitions, a);
    ConnectingCount(targets, places, transitions, a);
  }
}
