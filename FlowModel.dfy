/**
 * A flow: its ordered list of steps, its list of links between steps, and the
 * folder it is filed in. The queries scan the lists in order; the removals edit
 * the lists in place as Java's Iterator.remove does, one position at a time.
 */
module FlowModel {
  import opened Common

  datatype Folder = Folder(id: string)

  datatype FlowStep = FlowStep(id: string, name: string)

  /** A directed edge from one step to another, by step id. */
  datatype FlowStepLink = FlowStepLink(sourceStepId: string, targetStepId: string)

  datatype FlowParameter = FlowParameter(name: string, value: string)

  /** The link selections the flow's queries and removals use. */
  datatype LinkQuery =
    | FromStep(sourceId: string)
    | ToStep(targetId: string)
    | TouchingStep(stepId: string)
    | BetweenSteps(sourceId: string, targetId: string)

  predicate Selects(q: LinkQuery, l: FlowStepLink)
  {
    match q
    case FromStep(s) => l.sourceStepId == s
    case ToStep(t) => l.targetStepId == t
    case TouchingStep(id) => l.sourceStepId == id || l.targetStepId == id
    case BetweenSteps(s, t) => l.sourceStepId == s && l.targetStepId == t
  }

  /** The links `q` selects, in list order. */
  function Select(links: seq<FlowStepLink>, q: LinkQuery): seq<FlowStepLink>
  {
    if links == [] then []
    else Select(links[..|links| - 1], q)
         + (if Selects(q, links[|links| - 1]) then [links[|links| - 1]] else [])
  }

  /** The links `q` does not select, in list order. */
  function Reject(links: seq<FlowStepLink>, q: LinkQuery): seq<FlowStepLink>
  {
    if links == [] then []
    else Reject(links[..|links| - 1], q)
         + (if Selects(q, links[|links| - 1]) then [] else [links[|links| - 1]])
  }

  /** The first link `q` selects. */
  function FirstSelected(links: seq<FlowStepLink>, q: LinkQuery): Option<FlowStepLink>
  {
    if links == [] then None
    else if Selects(q, links[0]) then Some(links[0])
    else FirstSelected(links[1..], q)
  }

  /** The position of the first step with the given id. */
  function StepIndex(steps: seq<FlowStep>, id: string): (r: Option<nat>)
    ensures r.Some? ==> r.value < |steps| && steps[r.value].id == id
    ensures r.Some? ==> forall j :: 0 <= j < r.value ==> steps[j].id != id
    ensures r.None? ==> forall j :: 0 <= j < |steps| ==> steps[j].id != id
  {
    if steps == [] then None
    else if steps[0].id == id then Some(0)
    else match StepIndex(steps[1..], id)
      case None => None
      case Some(k) => Some(k + 1)
  }

  lemma {:induction false} SelectAppend(links: seq<FlowStepLink>, l: FlowStepLink, q: LinkQuery)
    ensures Select(links + [l], q) == Select(links, q) + (if Selects(q, l) then [l] else [])
    ensures Reject(links + [l], q) == Reject(links, q) + (if Selects(q, l) then [] else [l])
  {
    assert (links + [l])[..|links + [l]| - 1] == links;
  }

  /** A link is selected exactly when it is in the list and `q` selects it. */
  lemma {:induction false} SelectMembership(links: seq<FlowStepLink>, q: LinkQuery, l: FlowStepLink)
    ensures l in Select(links, q) <==> l in links && Selects(q, l)
    ensures l in Reject(links, q) <==> l in links && !Selects(q, l)
    decreases |links|
  {
    if links != [] {
      var init := links[..|links| - 1];
      SelectMembership(init, q, l);
      assert links == init + [links[|links| - 1]];
    }
  }

  /** Every selected link is one `q` selects (and no rejected link is). */
  lemma {:induction false} SelectOnlySelected(links: seq<FlowStepLink>, q: LinkQuery)
    ensures forall l :: l in Select(links, q) ==> Selects(q, l)
    ensures forall l :: l in Reject(links, q) ==> !Selects(q, l)
  {
    forall l | l in Select(links, q) ensures Selects(q, l) { SelectMembership(links, q, l); }
    forall l | l in Reject(links, q) ensures !Selects(q, l) { SelectMembership(links, q, l); }
  }

  /** Selecting and rejecting split the list: nothing is lost or duplicated. */
  lemma SelectRejectPartition(links: seq<FlowStepLink>, q: LinkQuery)
    ensures multiset(Select(links, q)) + multiset(Reject(links, q)) == multiset(links)
    ensures |Select(links, q)| + |Reject(links, q)| == |links|
  {
    SelectRejectMultiset(links, q);
    assert |multiset(Select(links, q)) + multiset(Reject(links, q))| == |multiset(links)|;
  }

  lemma {:induction false} SelectRejectMultiset(links: seq<FlowStepLink>, q: LinkQuery)
    ensures multiset(Select(links, q)) + multiset(Reject(links, q)) == multiset(links)
    decreases |links|
  {
    if links != [] {
      var init, last := links[..|links| - 1], links[|links| - 1];
      SelectRejectMultiset(init, q);
      assert links == init + [last];
      SelectAppend(init, last, q);
    }
  }

  /** One step of an in-place removal: `live` is the list part-way through, with
      the first `i` original links filtered and the iterator at `pos`. */
  lemma RemovalStep(orig: seq<FlowStepLink>, i: nat, q: LinkQuery, live: seq<FlowStepLink>, pos: nat)
    requires i < |orig|
    requires live == Reject(orig[..i], q) + orig[i..]
    requires pos == |Reject(orig[..i], q)|
    ensures pos < |live| && live[pos] == orig[i]
    ensures orig[..i + 1] == orig[..i] + [orig[i]]
    ensures Selects(q, orig[i]) ==>
              live[..pos] + live[pos + 1..] == Reject(orig[..i + 1], q) + orig[i + 1..]
              && pos == |Reject(orig[..i + 1], q)|
    ensures !Selects(q, orig[i]) ==>
              live == Reject(orig[..i + 1], q) + orig[i + 1..]
              && pos + 1 == |Reject(orig[..i + 1], q)|
  {
    assert orig[..i + 1] == orig[..i] + [orig[i]];
    SelectAppend(orig[..i], orig[i], q);
    assert orig[i..] == [orig[i]] + orig[i + 1..];
    assert live[..pos] == Reject(orig[..i], q);
    assert live[pos + 1..] == orig[i + 1..];
  }

  /** Once a list has been rejected by `q`, no link `q` selects is left in it. */
  lemma {:induction false} SelectOfRejectIsEmpty(links: seq<FlowStepLink>, q: LinkQuery)
    ensures Select(Reject(links, q), q) == []
  {
    var rest := Reject(links, q);
    SelectOnlySelected(links, q);
    if Select(rest, q) != [] {
      var l := Select(rest, q)[0];
      SelectMembership(rest, q, l);
      assert false;
    }
  }

  /** FirstSelected finds the earliest selected link, and nothing when there is none. */
  lemma {:induction false} FirstSelectedIsFirst(links: seq<FlowStepLink>, q: LinkQuery)
    ensures FirstSelected(links, q).None? <==> forall j :: 0 <= j < |links| ==> !Selects(q, links[j])
    ensures FirstSelected(links, q).Some? ==>
              exists i :: 0 <= i < |links| && links[i] == FirstSelected(links, q).value
                          && Selects(q, links[i]) && forall j :: 0 <= j < i ==> !Selects(q, links[j])
    decreases |links|
  {
    if links != [] && !Selects(q, links[0]) {
      FirstSelectedIsFirst(links[1..], q);
      assert forall j :: 1 <= j < |links| ==> links[j] == links[1..][j - 1];
      if FirstSelected(links, q).Some? {
        var i :| 0 <= i < |links[1..]| && links[1..][i] == FirstSelected(links, q).value
                 && Selects(q, links[1..][i]) && forall j :: 0 <= j < i ==> !Selects(q, links[1..][j]);
        assert links[i + 1] == links[1..][i];
      }
    }
  }

  /** After all links touching a step are removed, neither the source nor the
      target query finds a link for that step. */
  lemma RemovedStepLinksAreGone(links: seq<FlowStepLink>, id: string)
    ensures Select(Reject(links, TouchingStep(id)), FromStep(id)) == []
    ensures Select(Reject(links, TouchingStep(id)), ToStep(id)) == []
  {
    var rest := Reject(links, TouchingStep(id));
    SelectOnlySelected(links, TouchingStep(id));
    forall q | q == FromStep(id) || q == ToStep(id)
      ensures Select(rest, q) == []
    {
      if Select(rest, q) != [] {
        var l := Select(rest, q)[0];
        SelectMembership(rest, q, l);
        assert false;
      }
    }
  }

  /** After all links between two steps are removed, lookup of that pair finds nothing. */
  lemma RemovedPairIsGone(links: seq<FlowStepLink>, src: string, tgt: string)
    ensures FirstSelected(Reject(links, BetweenSteps(src, tgt)), BetweenSteps(src, tgt)) == None
  {
    var q := BetweenSteps(src, tgt);
    var rest := Reject(links, q);
    SelectOnlySelected(links, q);
    forall j | 0 <= j < |rest| ensures !Selects(q, rest[j]) {
      assert rest[j] in rest;
    }
    FirstSelectedIsFirst(rest, q);
  }

  /** The last link an iteration over `links` visits. */
  function LastVisited(links: seq<FlowStepLink>): Option<FlowStepLink>
  {
    if links == [] then None else Some(links[|links| - 1])
  }

  /** The last link `q` selects. */
  function LastSelected(links: seq<FlowStepLink>, q: LinkQuery): Option<FlowStepLink>
  {
    var sel := Select(links, q);
    if sel == [] then None else Some(sel[|sel| - 1])
  }

  /** The link removeFlowStepLink returns, as written, need not be one it
      removed: with a link from "a" to "b" followed by one from "c" to "d",
      removing the pair ("a", "b") returns the second link, which stays in the
      list, while the link actually removed is the first. */
  lemma ReturnedLinkNotRemoved()
    ensures var links := [FlowStepLink("a", "b"), FlowStepLink("c", "d")];
            var q := BetweenSteps("a", "b");
            && LastVisited(links) == Some(FlowStepLink("c", "d"))
            && FlowStepLink("c", "d") in Reject(links, q)
            && Select(links, q) == [FlowStepLink("a", "b")]
  {
    var links := [FlowStepLink("a", "b"), FlowStepLink("c", "d")];
    var q := BetweenSteps("a", "b");
    assert links[..1] == [FlowStepLink("a", "b")];
    assert links[..1][..0] == [];
    assert Reject(links, q) == [FlowStepLink("c", "d")];
  }

  /** The corrected return value is null exactly when nothing was removed, and
      otherwise a removed link: one the query selects, present before and gone
      after. */
  lemma LastSelectedIsRemoved(links: seq<FlowStepLink>, q: LinkQuery)
    ensures LastSelected(links, q).None? <==> forall l :: l in links ==> !Selects(q, l)
    ensures LastSelected(links, q).Some? ==>
              && LastSelected(links, q).value in links
              && Selects(q, LastSelected(links, q).value)
              && LastSelected(links, q).value !in Reject(links, q)
  {
    var sel := Select(links, q);
    forall l | l in links
      ensures l in sel <==> Selects(q, l)
    {
      SelectMembership(links, q, l);
    }
    if sel != [] {
      var l := sel[|sel| - 1];
      SelectMembership(links, q, l);
    } else {
      forall l | l in links ensures !Selects(q, l) {
        SelectMembership(links, q, l);
      }
    }
  }

  class Flow {
    var name: Option<string>
    var folder: Option<Folder>
    var projectVersionId: Option<string>
    var deleted: bool
    var flowSteps: seq<FlowStep>
    var flowStepLinks: seq<FlowStepLink>
    var flowParameters: seq<FlowParameter>

    /** A new flow has no steps, links or parameters. */
    constructor ()
      ensures flowSteps == [] && flowStepLinks == [] && flowParameters == []
      ensures name == None && folder == None && projectVersionId == None && !deleted
    {
      name := None;
      folder := None;
      projectVersionId := None;
      deleted := false;
      flowSteps := [];
      flowStepLinks := [];
      flowParameters := [];
    }

    /** A non-null id files the flow under a new folder object with that id;
        null clears the folder. */
    method SetFolderId(folderId: Option<string>)
      modifies this`folder
      ensures GetFolderId() == folderId
      ensures folderId.Some? ==> folder == Some(Folder(folderId.value))
    {
      if folderId.Some? {
        folder := Some(Folder(folderId.value));
      } else {
        folder := None;
      }
    }

    function GetFolderId(): (r: Option<string>)
      reads this
    {
      match folder
      case Some(f) => Some(f.id)
      case None => None
    }

    /** The first link from `sourceNodeId` to `targetNodeId`, or null. */
    method FindFlowStepLink(sourceNodeId: string, targetNodeId: string) returns (r: Option<FlowStepLink>)
      ensures r == FirstSelected(flowStepLinks, BetweenSteps(sourceNodeId, targetNodeId))
    {
      var q := BetweenSteps(sourceNodeId, targetNodeId);
      var i := 0;
      while i < |flowStepLinks|
        invariant 0 <= i <= |flowStepLinks|
        invariant FirstSelected(flowStepLinks, q) == FirstSelected(flowStepLinks[i..], q)
      {
        var link := flowStepLinks[i];
        if link.sourceStepId == sourceNodeId && link.targetStepId == targetNodeId {
          return Some(link);
        }
        assert flowStepLinks[i..][1..] == flowStepLinks[i + 1..];
        i := i + 1;
      }
      return None;
    }

    /** The links leaving `sourceNodeId`, in list order, in a new list. */
    method FindFlowStepLinksWithSource(sourceNodeId: string) returns (links: seq<FlowStepLink>)
      ensures links == Select(flowStepLinks, FromStep(sourceNodeId))
    {
      links := [];
      var i := 0;
      while i < |flowStepLinks|
        invariant 0 <= i <= |flowStepLinks|
        invariant links == Select(flowStepLinks[..i], FromStep(sourceNodeId))
      {
        var link := flowStepLinks[i];
        assert flowStepLinks[..i + 1] == flowStepLinks[..i] + [link];
        SelectAppend(flowStepLinks[..i], link, FromStep(sourceNodeId));
        if link.sourceStepId == sourceNodeId {
          links := links + [link];
        }
        i := i + 1;
      }
      assert flowStepLinks[..i] == flowStepLinks;
    }

    /** The links entering `targetNodeId`, in list order, in a new list. */
    method FindFlowStepLinksWithTarget(targetNodeId: string) returns (links: seq<FlowStepLink>)
      ensures links == Select(flowStepLinks, ToStep(targetNodeId))
    {
      links := [];
      var i := 0;
      while i < |flowStepLinks|
        invariant 0 <= i <= |flowStepLinks|
        invariant links == Select(flowStepLinks[..i], ToStep(targetNodeId))
      {
        var link := flowStepLinks[i];
        assert flowStepLinks[..i + 1] == flowStepLinks[..i] + [link];
        SelectAppend(flowStepLinks[..i], link, ToStep(targetNodeId));
        if link.targetStepId == targetNodeId {
          links := links + [link];
        }
        i := i + 1;
      }
      assert flowStepLinks[..i] == flowStepLinks;
    }

    /** The first step with the given id, or null. */
    method FindFlowStepWithId(id: string) returns (r: Option<FlowStep>)
      ensures r.None? <==> forall j :: 0 <= j < |flowSteps| ==> flowSteps[j].id != id
      ensures r.Some? ==> r == Some(flowSteps[StepIndex(flowSteps, id).value])
    {
      var i := 0;
      while i < |flowSteps|
        invariant 0 <= i <= |flowSteps|
        invariant forall j :: 0 <= j < i ==> flowSteps[j].id != id
      {
        if flowSteps[i].id == id {
          return Some(flowSteps[i]);
        }
        i := i + 1;
      }
      return None;
    }

    /** Removes the first step whose id is the given step's id and returns it;
        with no such step the list is unchanged and null is returned. */
    method RemoveFlowStep(flowStep: FlowStep) returns (r: Option<FlowStep>)
      modifies this`flowSteps
      ensures match StepIndex(old(flowSteps), flowStep.id)
              case None => r == None && flowSteps == old(flowSteps)
              case Some(i) => r == Some(old(flowSteps)[i])
                              && flowSteps == old(flowSteps)[..i] + old(flowSteps)[i + 1..]
    {
      var i := 0;
      while i < |flowSteps|
        invariant 0 <= i <= |flowSteps|
        invariant flowSteps == old(flowSteps)
        invariant forall j :: 0 <= j < i ==> flowSteps[j].id != flowStep.id
      {
        var step := flowSteps[i];
        if step.id == flowStep.id {
          flowSteps := flowSteps[..i] + flowSteps[i + 1..];
          return Some(step);
        }
        i := i + 1;
      }
      return None;
    }

    /** Removes every link into or out of the step and returns the removed
        links in list order; the rest keep their order. */
    method RemoveFlowStepLinks(flowStepId: string) returns (links: seq<FlowStepLink>)
      modifies this`flowStepLinks
      ensures links == Select(old(flowStepLinks), TouchingStep(flowStepId))
      ensures flowStepLinks == Reject(old(flowStepLinks), TouchingStep(flowStepId))
    {
      ghost var orig := flowStepLinks;
      var q := TouchingStep(flowStepId);
      links := [];
      // pos is the iterator's position in the live list; i is the matching position in `orig`
      var pos := 0;
      ghost var i := 0;
      while pos < |flowStepLinks|
        invariant 0 <= i <= |orig|
        invariant |flowStepLinks| - pos == |orig| - i
        invariant flowStepLinks == Reject(orig[..i], q) + orig[i..]
        invariant pos == |Reject(orig[..i], q)|
        invariant links == Select(orig[..i], q)
        decreases |flowStepLinks| - pos
      {
        RemovalStep(orig, i, q, flowStepLinks, pos);
        var link := flowStepLinks[pos];
        SelectAppend(orig[..i], link, q);
        if link.sourceStepId == flowStepId || link.targetStepId == flowStepId {
          flowStepLinks := flowStepLinks[..pos] + flowStepLinks[pos + 1..];
          links := links + [link];
        } else {
          pos := pos + 1;
        }
        i := i + 1;
      }
      assert orig[..i] == orig;
    }

    /** Removes every link from `sourceStepId` to `targetStepId`. Returns the
        last link the iteration visited, which is the list's last link (matching
        or not), or null for an empty list. */
    method RemoveFlowStepLink(sourceStepId: string, targetStepId: string) returns (link: Option<FlowStepLink>)
      modifies this`flowStepLinks
      ensures link == LastVisited(old(flowStepLinks))
      ensures flowStepLinks == Reject(old(flowStepLinks), BetweenSteps(sourceStepId, targetStepId))
    {
      ghost var orig := flowStepLinks;
      var q := BetweenSteps(sourceStepId, targetStepId);
      link := None;
      var pos := 0;
      ghost var i := 0;
      while pos < |flowStepLinks|
        invariant 0 <= i <= |orig|
        invariant |flowStepLinks| - pos == |orig| - i
        invariant flowStepLinks == Reject(orig[..i], q) + orig[i..]
        invariant pos == |Reject(orig[..i], q)|
        invariant link == if i == 0 then None else Some(orig[i - 1])
        decreases |flowStepLinks| - pos
      {
        RemovalStep(orig, i, q, flowStepLinks, pos);
        var current := flowStepLinks[pos];
        link := Some(current);
        if current.sourceStepId == sourceStepId && current.targetStepId == targetStepId {
          flowStepLinks := flowStepLinks[..pos] + flowStepLinks[pos + 1..];
        } else {
          pos := pos + 1;
        }
        i := i + 1;
      }
      assert orig[..i] == orig;
    }

    /** removeFlowStepLink as evidently intended: the same removal, returning
        the link it removed (the last one, when the pair is linked twice), or
        null when no link joins the two steps. */
    method RemoveFlowStepLinkAsIntended(sourceStepId: string, targetStepId: string) returns (link: Option<FlowStepLink>)
      modifies this`flowStepLinks
      ensures link == LastSelected(old(flowStepLinks), BetweenSteps(sourceStepId, targetStepId))
      ensures flowStepLinks == Reject(old(flowStepLinks), BetweenSteps(sourceStepId, targetStepId))
    {
      ghost var orig := flowStepLinks;
      var q := BetweenSteps(sourceStepId, targetStepId);
      link := None;
      var pos := 0;
      ghost var i := 0;
      while pos < |flowStepLinks|
        invariant 0 <= i <= |orig|
        invariant |flowStepLinks| - pos == |orig| - i
        invariant flowStepLinks == Reject(orig[..i], q) + orig[i..]
        invariant pos == |Reject(orig[..i], q)|
        invariant link == LastSelected(orig[..i], q)
        decreases |flowStepLinks| - pos
      {
        RemovalStep(orig, i, q, flowStepLinks, pos);
        SelectAppend(orig[..i], orig[i], q);
        var current := flowStepLinks[pos];
        if current.sourceStepId == sourceStepId && current.targetStepId == targetStepId {
          flowStepLinks := flowStepLinks[..pos] + flowStepLinks[pos + 1..];
          link := Some(current);
        } else {
          pos := pos + 1;
        }
        i := i + 1;
      }
      assert orig[..i] == orig;
    }
  }
}
