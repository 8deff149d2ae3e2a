/** Which workspaces the workspace part of an address names, in terms of the
    folders along a path. */
module PaneWorkspaces {
  import opened Strings
  import opened PaneTables
  import opened PaneAddresses
  import opened PaneResolution
  import opened Paths

  /** The text of a run of segments, `parent/proj`. */
  function Segments(segments: seq<string>): string
    requires segments != []
  {
    RenderBelow(segments)[1..]
  }

  lemma SegmentsShape(segments: seq<string>)
    requires segments != [] && Components(segments)
    ensures "/" + Segments(segments) == RenderBelow(segments) && Segments(segments) != ""
    ensures NormalizeWorkspace(Segments(segments)) == Segments(segments)
  {
    RenderEnds(segments);
    var text := RenderBelow(segments);
    assert text == "/" + (segments[0] + RenderBelow(segments[1..]));
    assert Segments(segments) == segments[0] + RenderBelow(segments[1..]);
    assert Segments(segments)[|Segments(segments)| - 1] == text[|text| - 1];
  }

  lemma SlashBetween(segments: seq<string>)
    requires |segments| > 1 && Components(segments)
    ensures '/' in Segments(segments)
  {
    assert RenderBelow(segments) == "/" + (segments[0] + RenderBelow(segments[1..]));
    RenderEnds(segments[1..]);
    assert Segments(segments)[|segments[0]|] == '/';
  }

  lemma OneSegment(segments: seq<string>)
    requires segments != [] && Components(segments) && '/' !in Segments(segments)
    ensures segments == [Segments(segments)]
  {
    if |segments| > 1 {
      SlashBetween(segments);
    } else {
      assert RenderBelow(segments) == "/" + (segments[0] + RenderBelow(segments[1..]));
      assert segments == [segments[0]] && segments[1..] == [];
      assert Segments(segments) == segments[0];
    }
  }

  lemma FolderNameIsLastSegment(path: seq<string>)
    requires Components(path) && path != []
    ensures BaseName(Render(path)) == path[|path| - 1]
  {
    var init, last := path[..|path| - 1], path[|path| - 1];
    assert path == init + [last];
    RenderLast(init, last);
    SplitAtLast(RenderBelow(init), last);
  }

  lemma EndsAfterSlash(path: seq<string>, segments: seq<string>)
    requires Components(path) && Components(segments) && segments != []
    ensures EndsWith(Render(path), "/" + Segments(segments)) <==> IsSuffix(segments, path)
  {
    SegmentsShape(segments);
    EndsInSegments(path, segments);
  }

  /** A workspace answers to a run of segments exactly when they are its last ones. */
  lemma AnswersToItsLastSegments(path: seq<string>, segments: seq<string>)
    requires Components(path) && Components(segments) && segments != []
    ensures AnswersTo(Render(path), Segments(segments)) <==> IsSuffix(segments, path)
  {
    EndsAfterSlash(path, segments);
    SegmentsShape(segments);
    if path == [] {
      assert BaseName("/") == "";
      hide Segments, RenderBelow, EndsWith;
      assert Segments(segments) != "/" by {
        SlashIsNoSegment(segments);
      }
    } else {
      FolderNameIsLastSegment(path);
      hide BaseName, Segments, RenderBelow, EndsWith, Render;
      if path[|path| - 1] == Segments(segments) {
        OneSegment(segments);
        assert path[|path| - 1..] == segments;
      }
    }
  }

  lemma SlashIsNoSegment(segments: seq<string>)
    requires segments != [] && Components(segments)
    ensures Segments(segments) != "/"
  {
    assert RenderBelow(segments) == "/" + (segments[0] + RenderBelow(segments[1..]));
    assert Segments(segments) == segments[0] + RenderBelow(segments[1..]);
    assert Segments(segments)[0] == segments[0][0];
  }

  ghost predicate Registered(panes: Panes, workspace: string) {
    exists id :: id in panes && panes[id].workspacePath == workspace
  }

  /** The candidates for a part of an address: a registered path names itself
      alone; a part that is none names exactly the registered workspaces whose
      last segments it spells. */
  lemma CandidatesAreExact(panes: Panes, part: string, path: seq<string>, segments: seq<string>)
    requires Components(path) && Components(segments) && segments != []
    requires NormalizeWorkspace(part) == Segments(segments)
    ensures Registered(panes, Segments(segments)) ==> MatchWorkspaces(panes, part) == {Segments(segments)}
    ensures !Registered(panes, Segments(segments)) ==>
      (Render(path) in MatchWorkspaces(panes, part) <==> Registered(panes, Render(path)) && IsSuffix(segments, path))
  {
    SegmentsShape(segments);
    AnswersToItsLastSegments(path, segments);
    hide AnswersTo, NormalizeWorkspace, Segments, Render, IsSuffix;
  }

  /** Normalizing takes trailing slashes off, unless there is nothing else. */
  lemma NormalizedWorkspace(path: string)
    ensures NormalizeWorkspace(path) <= path
    ensures forall k :: |NormalizeWorkspace(path)| <= k < |path| ==> path[k] == '/'
    ensures (exists k :: 0 <= k < |path| && path[k] != '/') ==>
      NormalizeWorkspace(path) != "" && NormalizeWorkspace(path)[|NormalizeWorkspace(path)| - 1] != '/'
    ensures (forall k :: 0 <= k < |path| ==> path[k] == '/') ==> NormalizeWorkspace(path) == path
  {
  }

  lemma BaseNameIsLast(path: string)
    ensures '/' in path ==> exists head :: path == head + "/" + BaseName(path)
    ensures '/' !in path ==> BaseName(path) == path
  {
    var i := LastIndexOf(path, '/');
    if i >= 0 {
      assert path == path[..i] + "/" + BaseName(path);
    }
  }

  lemma AnswersToAfterASlash(workspace: string, want: string)
    requires workspace != want
    ensures AnswersTo(workspace, want) <==> exists head :: workspace == head + "/" + want
  {
    hide BaseName, EndsWith;
    BaseNameIsLast(workspace);
    EndsWithIsConcat(workspace, "/" + want);
    assert forall head: string :: head + ("/" + want) == head + "/" + want;
  }

  /** The same for any text: an unregistered part names the registered
      workspaces that end in it after a slash. */
  lemma CandidatesInText(panes: Panes, part: string, workspace: string)
    ensures part == "" ==> MatchWorkspaces(panes, part) == {}
    ensures part != "" && Registered(panes, NormalizeWorkspace(part)) ==>
      MatchWorkspaces(panes, part) == {NormalizeWorkspace(part)}
    ensures part != "" && !Registered(panes, NormalizeWorkspace(part)) ==>
      (workspace in MatchWorkspaces(panes, part) <==>
       Registered(panes, workspace) && exists head :: workspace == head + "/" + NormalizeWorkspace(part))
  {
    NormalizedWorkspace(part);
    assert NormalizeWorkspace(part) == "" ==> part == "";
    hide AnswersTo, NormalizeWorkspace;
    if workspace != NormalizeWorkspace(part) {
      AnswersToAfterASlash(workspace, NormalizeWorkspace(part));
    }
  }
}
