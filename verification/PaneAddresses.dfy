/** Addresses of panes: how a `to:` string is split, and which pane of the
    registry it names as seen from a sending pane. */
module PaneAddresses {
  import opened Strings

  // ---- The parts of an address ----

  datatype Address = Address(paneName: string, workspace: string, deviceId: string, paneId: string)
  {
    function LocalTarget(): string {
      if workspace != "" then workspace + "/" + paneName else paneName
    }

    function ToString(): string {
      if deviceId != "" then deviceId + "/" + LocalTarget() else LocalTarget()
    }
  }

  predicate IsHex(c: char) {
    '0' <= c <= '9' || 'a' <= c <= 'f' || 'A' <= c <= 'F'
  }

  /** The 8-4-4-4-12 text form of a UUID (RFC 9562, section 4). */
  predicate IsUuid(s: string) {
    && |s| == 36
    && forall i :: 0 <= i < 36 ==> if i == 8 || i == 13 || i == 18 || i == 23 then s[i] == '-' else IsHex(s[i])
  }

  predicate HexText(s: string, n: nat) {
    |s| == n && forall i :: 0 <= i < n ==> '0' <= s[i] <= '9' || 'a' <= s[i] <= 'f' || 'A' <= s[i] <= 'F'
  }

  /** Five groups of hexadecimal digits, joined by hyphens. */
  lemma UuidIsFiveGroups(s: string)
    ensures IsUuid(s) <==> exists a, b, c, d, e ::
      && HexText(a, 8) && HexText(b, 4) && HexText(c, 4) && HexText(d, 4) && HexText(e, 12)
      && s == a + "-" + b + "-" + c + "-" + d + "-" + e
  {
    if IsUuid(s) {
      var a, b, c, d, e := s[..8], s[9..13], s[14..18], s[19..23], s[24..];
      assert HexText(a, 8) && HexText(b, 4) && HexText(c, 4) && HexText(d, 4) && HexText(e, 12);
      assert s == a + "-" + b + "-" + c + "-" + d + "-" + e;
    }
  }

  /** The device pattern ends in `$`, which also matches before a final newline. */
  predicate IsDeviceSegment(s: string) {
    IsUuid(s) || (|s| == 37 && s[36] == '\n' && IsUuid(s[..36]))
  }

  function SplitDeviceSegment(target: string): (string, string) {
    var i := IndexOf(target, '/');
    if i == |target| || '/' !in target[i + 1..] || !IsDeviceSegment(target[..i]) then ("", target)
    else (target[..i], target[i + 1..])
  }

  /** `str.rpartition("/")` without the separator. */
  function SplitLast(s: string): (string, string) {
    var i := LastIndexOf(s, '/');
    if i < 0 then ("", s) else (s[..i], s[i + 1..])
  }

  function ParseTarget(to: string): Address {
    var (device, rest) := SplitDeviceSegment(Strip(to));
    var (workspace, paneName) := SplitLast(rest);
    Address(Strip(paneName), workspace, device, "")
  }

  /** The addresses whose string form says exactly what they are. */
  predicate WellFormed(a: Address) {
    && Trimmed(a.paneName) && '/' !in a.paneName
    && if a.deviceId != "" then IsDeviceSegment(a.deviceId) && a.workspace != ""
       else a.workspace != "" ==> !IsSpace(a.workspace[0]) && !StartsWithDevice(a.workspace)
  }

  /** A multi-segment workspace whose first segment reads as a device. */
  predicate StartsWithDevice(workspace: string) {
    var i := IndexOf(workspace, '/');
    i < |workspace| && IsDeviceSegment(workspace[..i])
  }

  lemma SplitAtFirst(head: string, rest: string)
    requires '/' !in head
    ensures IndexOf(head + "/" + rest, '/') == |head|
    ensures (head + "/" + rest)[..|head|] == head && (head + "/" + rest)[|head| + 1..] == rest
  {
    var s := head + "/" + rest;
    assert s[|head|] == '/' && s[..|head|] == head;
    assert forall k :: 0 <= k < |head| ==> s[k] == head[k];
  }

  lemma SplitAtLast(init: string, last: string)
    requires '/' !in last
    ensures SplitLast(init + "/" + last) == (init, last)
  {
    var s := init + "/" + last;
    assert s[|init|] == '/' && s[|init| + 1..] == last && s[..|init|] == init;
    assert forall k :: |init| < k < |s| ==> s[k] == last[k - |init| - 1];
  }

  lemma JoinLast(s: string)
    ensures '/' in s ==> s == SplitLast(s).0 + "/" + SplitLast(s).1
    ensures '/' !in s ==> SplitLast(s) == ("", s)
    ensures '/' !in SplitLast(s).1
  {
  }

  /** Parsing an address's own string gives back its device, workspace and pane
      name exactly for the well-formed addresses. */
  lemma AddressRoundTrip(a: Address)
    ensures ParseTarget(a.ToString()) == a.(paneId := "") <==> WellFormed(a)
  {
    if WellFormed(a) {
      WellFormedRoundTrips(a);
    } else if ParseTarget(a.ToString()) == a.(paneId := "") {
      RoundTripIsWellFormed(a);
    }
  }

  lemma JoinedIsTrimmed(prefix: string, paneName: string)
    requires prefix != "" && !IsSpace(prefix[0]) && Trimmed(paneName)
    ensures Trimmed(prefix + "/" + paneName)
  {
  }

  lemma WellFormedStringIsTrimmed(a: Address)
    requires WellFormed(a)
    ensures Strip(a.ToString()) == a.ToString()
  {
    if a.deviceId != "" {
      var prefix := a.deviceId + "/" + a.workspace;
      assert prefix[0] == a.deviceId[0] && IsHex(prefix[0]) by {
        assert |a.deviceId| > 36 ==> a.deviceId[..36][0] == a.deviceId[0];
      }
      JoinedIsTrimmed(prefix, a.paneName);
      assert a.ToString() == prefix + "/" + a.paneName;
    } else if a.workspace != "" {
      JoinedIsTrimmed(a.workspace, a.paneName);
    }
  }

  lemma DeviceHasNoSlash(s: string)
    requires IsDeviceSegment(s)
    ensures '/' !in s
  {
  }

  lemma WellFormedSplits(a: Address)
    requires WellFormed(a)
    ensures SplitDeviceSegment(a.ToString()) == (a.deviceId, a.LocalTarget())
    ensures SplitLast(a.LocalTarget()) == (a.workspace, a.paneName)
  {
    JoinLast(a.LocalTarget());
    if a.workspace != "" {
      SplitAtLast(a.workspace, a.paneName);
    }
    if a.deviceId != "" {
      DeviceHasNoSlash(a.deviceId);
      SplitAtFirst(a.deviceId, a.LocalTarget());
      assert a.LocalTarget()[|a.workspace|] == '/';
    } else if a.workspace != "" {
      NoDeviceInWorkspace(a.workspace, a.paneName);
    }
  }

  lemma WellFormedRoundTrips(a: Address)
    requires WellFormed(a)
    ensures ParseTarget(a.ToString()) == a.(paneId := "")
  {
    WellFormedStringIsTrimmed(a);
    WellFormedSplits(a);
  }

  lemma NoDeviceInWorkspace(workspace: string, paneName: string)
    requires workspace != "" && '/' !in paneName
    ensures SplitDeviceSegment(workspace + "/" + paneName).0 == "" <==> !StartsWithDevice(workspace)
  {
    var i := IndexOf(workspace, '/');
    var s := workspace + "/" + paneName;
    if i == |workspace| {
      SplitAtFirst(workspace, paneName);
    } else {
      var head, tail := workspace[..i], workspace[i + 1..] + "/" + paneName;
      assert s == head + "/" + tail;
      SplitAtFirst(head, tail);
      assert tail[|workspace| - i - 1] == '/';
    }
  }

  lemma StripSlice(s: string) returns (from: nat)
    ensures from + |Strip(s)| <= |s| && Strip(s) == s[from..from + |Strip(s)|]
  {
    from := |s| - |LStrip(s)|;
  }

  lemma RoundTripIsWellFormed(a: Address)
    requires ParseTarget(a.ToString()) == a.(paneId := "")
    ensures WellFormed(a)
  {
    var s := Strip(a.ToString());
    var (device, rest) := SplitDeviceSegment(s);
    var (workspace, paneName) := SplitLast(rest);
    JoinLast(rest);
    var from := StripSlice(paneName);
    assert a.deviceId == device && a.workspace == workspace && a.paneName == Strip(paneName);
    assert '/' !in a.paneName;
    if device != "" {
      DeviceHasNoSlash(device);
      var i, k := DeviceMeansTwoSlashes(s);
      var start := StripSlice(a.ToString());
      if workspace == "" {
        TwoSlashes(device, a.paneName, a.ToString(), start, s, i, k);
      }
    } else if workspace != "" {
      assert s[0] == workspace[0];
      NoDeviceInWorkspace(workspace, paneName);
    }
  }

  lemma DeviceMeansTwoSlashes(s: string) returns (i: nat, k: nat)
    requires SplitDeviceSegment(s).0 != ""
    ensures i < k < |s| && s[i] == '/' && s[k] == '/'
  {
    i := IndexOf(s, '/');
    assert '/' in s[i + 1..];
    k :| i < k < |s| && s[k] == '/';
  }

  /** Two slashes inside a slice of `head/last` cannot both be the separator. */
  lemma TwoSlashes(head: string, last: string, whole: string, start: nat, s: string, i: nat, k: nat)
    requires whole == head + "/" + last && '/' !in head
    requires start + |s| <= |whole| && s == whole[start..start + |s|]
    requires i < k < |s| && s[i] == '/' && s[k] == '/'
    ensures '/' in last
  {
  }
}
