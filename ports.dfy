/** Choosing the serial port when none is given (pickPort, mcard.py:115-133). */
module Ports {
  import opened Wrappers
  import opened Text

  /** A port pickPort considers: one whose name does not contain "Bluetooth". */
  predicate IsCandidate(name: string) {
    !Contains(name, "Bluetooth")
  }

  /** The candidate names, in the order the system lists them. */
  function Candidates(names: seq<string>): (c: seq<string>)
    ensures |c| <= |names|
    decreases |names|
  {
    if names == [] then []
    else
      var before := Candidates(names[..|names| - 1]);
      if IsCandidate(names[|names| - 1]) then before + [names[|names| - 1]] else before
  }

  lemma {:induction false} CandidatesAppend(a: seq<string>, b: seq<string>)
    ensures Candidates(a + b) == Candidates(a) + Candidates(b)
    decreases |b|
  {
    if b == [] {
      assert a + b == a;
    } else {
      var b' := b[..|b| - 1];
      assert (a + b)[..|a + b| - 1] == a + b';
      CandidatesAppend(a, b');
    }
  }

  /** The port pickPort returns: the one candidate, and None when there is none or more than one. */
  function PickedPort(names: seq<string>): (p: Option<string>)
    ensures p.Some? ==> p.value in names && IsCandidate(p.value)
  {
    var c := Candidates(names);
    if |c| == 1 then
      CandidatesFrom(names, 0);
      Some(c[0])
    else None
  }

  /** pickPort's loop over the listed names, giving up as soon as a second candidate turns up. */
  method PickPort(names: seq<string>) returns (portname: Option<string>)
    ensures portname == PickedPort(names)
  {
    portname := None;
    for i := 0 to |names|
      invariant |Candidates(names[..i])| <= 1
      invariant portname == if |Candidates(names[..i])| == 0 then None else Some(Candidates(names[..i])[0])
    {
      assert names[..i + 1][..i] == names[..i];
      var name := names[i];
      if !IsCandidate(name) {
        continue;
      }
      if portname == None {
        portname := Some(name);
      } else {
        CandidatesAppend(names[..i + 1], names[i + 1..]);
        assert names[..i + 1] + names[i + 1..] == names;
        return None;
      }
    }
    assert names[..|names|] == names;
  }

  /** The only candidate in the list is picked. */
  lemma {:induction false} PickedPortUnique(names: seq<string>, i: nat)
    requires i < |names| && IsCandidate(names[i])
    requires forall j :: 0 <= j < |names| && j != i ==> !IsCandidate(names[j])
    ensures PickedPort(names) == Some(names[i])
  {
    NoCandidates(names[..i]);
    NoCandidates(names[i + 1..]);
    CandidatesAppend(names[..i], [names[i]] + names[i + 1..]);
    CandidatesAppend([names[i]], names[i + 1..]);
    assert [names[i]][..0] == [];
    assert names[..i] + ([names[i]] + names[i + 1..]) == names;
  }

  /** With no candidate, or with two, pickPort returns None. */
  lemma {:induction false} PickedPortNone(names: seq<string>)
    requires (forall j :: 0 <= j < |names| ==> !IsCandidate(names[j])) ||
      (exists i, j :: 0 <= i < j < |names| && IsCandidate(names[i]) && IsCandidate(names[j]))
    ensures PickedPort(names) == None
  {
    if forall j :: 0 <= j < |names| ==> !IsCandidate(names[j]) {
      NoCandidates(names);
    } else {
      var i, j :| 0 <= i < j < |names| && IsCandidate(names[i]) && IsCandidate(names[j]);
      CandidateKept(names[..j], i);
      CandidatesAppend(names[..j], names[j..]);
      CandidatesAppend([names[j]], names[j + 1..]);
      assert [names[j]][..0] == [];
      assert names[j..] == [names[j]] + names[j + 1..];
      assert names[..j] + names[j..] == names;
    }
  }

  lemma {:induction false} NoCandidates(names: seq<string>)
    requires forall j :: 0 <= j < |names| ==> !IsCandidate(names[j])
    ensures Candidates(names) == []
    decreases |names|
  {
    if names != [] {
      NoCandidates(names[..|names| - 1]);
    }
  }

  lemma {:induction false} CandidateKept(names: seq<string>, i: nat)
    requires i < |names| && IsCandidate(names[i])
    ensures |Candidates(names)| > 0
    decreases |names|
  {
    if i < |names| - 1 {
      CandidateKept(names[..|names| - 1], i);
    }
  }

  lemma {:induction false} CandidatesFrom(names: seq<string>, k: nat)
    requires k < |Candidates(names)|
    ensures Candidates(names)[k] in names && IsCandidate(Candidates(names)[k])
    decreases |names|
  {
    var before := Candidates(names[..|names| - 1]);
    if k < |before| {
      CandidatesFrom(names[..|names| - 1], k);
    }
  }
}
