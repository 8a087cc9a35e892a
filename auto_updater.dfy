/**
 * The update decision of auto_updater.py: version strings are read as
 * tuples of integers and compared in Python's tuple order; the manifest
 * (the dict the server helper loads, empty when unavailable) decides
 * whether an update exists, whether the running version is blocked, and
 * which message the user sees.
 */
module AutoUpdater {
  import opened Wrappers
  import opened Json
  import Text

  /** `int(part)` for every part; None as soon as one part is not an integer. */
  function ParseParts(parts: seq<string>): Option<seq<int>> {
    if parts == [] then Some([])
    else
      var head := Text.ParseInt(parts[0]);
      var tail := ParseParts(parts[1..]);
      if head.None? || tail.None? then None else Some([head.value] + tail.value)
  }

  /** Every part read as an integer, in order, or nothing exactly when some part is not one. */
  lemma {:induction false} ParsePartsLaws(parts: seq<string>)
    ensures var r := ParseParts(parts);
            r.Some? ==> |r.value| == |parts| && forall k :: 0 <= k < |parts| ==> Text.ParseInt(parts[k]) == Some(r.value[k])
    ensures ParseParts(parts).None? <==> exists k :: 0 <= k < |parts| && Text.ParseInt(parts[k]).None?
  {
    if parts != [] {
      var tail := parts[1..];
      ParsePartsLaws(tail);
      var h, t := Text.ParseInt(parts[0]), ParseParts(tail);
      if h.None? {
        assert Text.ParseInt(parts[0]).None?;
      } else if t.None? {
        var k :| 0 <= k < |tail| && Text.ParseInt(tail[k]).None?;
        assert parts[k + 1] == tail[k];
      } else {
        var r := [h.value] + t.value;
        forall k | 0 <= k < |parts|
          ensures Text.ParseInt(parts[k]) == Some(r[k])
        {
          if k > 0 {
            assert parts[k] == tail[k - 1] && r[k] == t.value[k - 1];
          }
        }
        forall k | 0 <= k < |parts|
          ensures Text.ParseInt(parts[k]).Some?
        {
          assert Text.ParseInt(parts[k]) == Some(r[k]);
        }
      }
    }
  }

  /** Parts that each read as their number read as the numbers. */
  lemma {:induction false} ParsePartsAll(parts: seq<string>, ns: seq<int>)
    requires |parts| == |ns| && forall k :: 0 <= k < |parts| ==> Text.ParseInt(parts[k]) == Some(ns[k])
    ensures ParseParts(parts) == Some(ns)
  {
    if parts != [] {
      assert forall k :: 0 <= k < |parts| - 1 ==> parts[1..][k] == parts[k + 1] && ns[1..][k] == ns[k + 1];
      ParsePartsAll(parts[1..], ns[1..]);
      assert ns == [ns[0]] + ns[1..];
    }
  }

  /**
   * `_version_tuple`: a false value gives `(0,)`; a string is split at the
   * dots and every part read as an integer, and `(0,)` replaces the whole
   * tuple when a part is not one; any other true value cannot be split and
   * gives `(0,)` as well.
   */
  function VersionTuple(raw: Value): (t: seq<int>)
    ensures |t| >= 1
    ensures !Truthy(raw) || !raw.Str? ==> t == [0]
    ensures raw.Str? && raw.s != "" ==>
              var parts := Text.Split(raw.s, '.');
              t == if ParseParts(parts).Some? then ParseParts(parts).value else [0]
  {
    if !Truthy(raw) || !raw.Str? then [0]
    else
      var p := ParseParts(Text.Split(raw.s, '.'));
      if p.Some? then p.value else [0]
  }

  /** The dotted text of a version: its numbers printed and joined with dots. */
  function JoinDots(ns: seq<nat>): (s: string)
    requires |ns| >= 1
    decreases |ns|
  {
    if |ns| == 1 then Text.NatToString(ns[0]) else Text.NatToString(ns[0]) + "." + JoinDots(ns[1..])
  }

  /** Splitting the dotted text at its dots gives back the printed numbers. */
  lemma {:induction false} SplitJoin(ns: seq<nat>)
    requires |ns| >= 1
    ensures Text.Split(JoinDots(ns), '.') == seq(|ns|, k requires 0 <= k < |ns| => Text.NatToString(ns[k]))
    decreases |ns|
  {
    var d := Text.NatToString(ns[0]);
    assert '.' !in d;
    if |ns| == 1 {
      Text.SplitWhole(d, '.');
    } else {
      var rest := JoinDots(ns[1..]);
      assert JoinDots(ns) == d + ['.'] + rest;
      Text.SplitFirst(d, rest, '.');
      SplitJoin(ns[1..]);
      assert forall k :: 1 <= k < |ns| ==> ns[1..][k - 1] == ns[k];
    }
  }

  /** Reading a printed version gives back its numbers. */
  lemma VersionRoundTrip(ns: seq<nat>)
    requires |ns| >= 1
    ensures VersionTuple(Str(JoinDots(ns))) == ns
  {
    var parts := Text.Split(JoinDots(ns), '.');
    SplitJoin(ns);
    forall k | 0 <= k < |parts|
      ensures Text.ParseInt(parts[k]) == Some(ns[k] as int)
    {
      Text.ParseIntNat(ns[k]);
    }
    ParsePartsAll(parts, ns);
    assert JoinDots(ns) != "" by {
      if |ns| > 1 {
        assert JoinDots(ns) == Text.NatToString(ns[0]) + "." + JoinDots(ns[1..]);
      }
    }
  }

  /** Python's `<` on tuples of integers: the first difference decides, and a proper prefix comes first. */
  predicate TupleLess(a: seq<int>, b: seq<int>)
    decreases |a|
  {
    b != [] && (a == [] || a[0] < b[0] || (a[0] == b[0] && TupleLess(a[1..], b[1..])))
  }

  /** The tuple order is a strict total order. */
  lemma {:induction false} TupleOrder(a: seq<int>, b: seq<int>, c: seq<int>)
    ensures !TupleLess(a, a)
    ensures TupleLess(a, b) ==> !TupleLess(b, a)
    ensures a != b ==> TupleLess(a, b) || TupleLess(b, a)
    ensures TupleLess(a, b) && TupleLess(b, c) ==> TupleLess(a, c)
    decreases |a|
  {
    if a != [] && b != [] && c != [] {
      TupleOrder(a[1..], b[1..], c[1..]);
      if a != b && a[0] == b[0] {
        assert a == [a[0]] + a[1..] && b == [b[0]] + b[1..];
      }
    } else if a != [] && b != [] {
      TupleOrder(a[1..], b[1..], []);
      if a != b && a[0] == b[0] {
        assert a == [a[0]] + a[1..] && b == [b[0]] + b[1..];
      }
    } else if a != [] {
      TupleOrder(a[1..], a[1..], a[1..]);
    }
  }

  /** The fields of `UpdateStatus`; `Null` stands for Python's `None`. */
  datatype UpdateStatus = UpdateStatus(
    localVersion: string,
    latestVersion: Value,
    minSupportedVersion: Value,
    downloadUrl: Value,
    changelog: Value,
    updateAvailable: bool,
    requiresUpdate: bool,
    forcedBlock: bool,
    message: Value)

  const RequiredMessage := "A newer version is required to continue."
  const AvailableMessage := "Nova versão disponível."

  /**
   * `AutoUpdater.check_for_updates` with the loaded manifest and the
   * running version passed in. An empty manifest leaves every field but the
   * local version unset. Otherwise an update is available exactly when the
   * latest version's tuple is above the local one, an update is required
   * exactly when one is available, the session is blocked exactly when a
   * minimum version is given and the local tuple is below it, and the
   * message is the changelog or a default when blocked or when an update
   * exists, and unset otherwise.
   */
  method CheckForUpdates(manifest: map<string, Value>, appVersion: string) returns (status: UpdateStatus)
    ensures manifest == map[] ==> status == UpdateStatus(appVersion, Null, Null, Null, Null, false, false, false, Null)
    ensures manifest != map[] ==>
              var local := VersionTuple(Str(appVersion));
              var changelog := Get(manifest, "changelog", Null);
              status.localVersion == appVersion
              && status.latestVersion == Get(manifest, "latest_version", Null)
              && status.minSupportedVersion == Get(manifest, "min_supported_version", Null)
              && status.downloadUrl == Get(manifest, "download_url", Null)
              && status.changelog == changelog
              && (status.updateAvailable <==> TupleLess(local, VersionTuple(status.latestVersion)))
              && status.requiresUpdate == status.updateAvailable
              && (status.forcedBlock <==> Truthy(status.minSupportedVersion) && TupleLess(local, VersionTuple(status.minSupportedVersion)))
              && (status.forcedBlock ==> status.message == if Truthy(changelog) then Str(StrOf(changelog)) else Str(RequiredMessage))
              && (!status.forcedBlock && status.updateAvailable ==>
                    status.message == if Truthy(changelog) then changelog else Str(AvailableMessage))
              && (!status.forcedBlock && !status.updateAvailable ==> status.message == Null)
  {
    status := UpdateStatus(appVersion, Null, Null, Null, Null, false, false, false, Null);
    if manifest == map[] {
      return;
    }
    status := status.(latestVersion := Get(manifest, "latest_version", Null));
    status := status.(minSupportedVersion := Get(manifest, "min_supported_version", Null));
    status := status.(downloadUrl := Get(manifest, "download_url", Null));
    status := status.(changelog := Get(manifest, "changelog", Null));
    var localTuple := VersionTuple(Str(appVersion));
    var latestTuple := VersionTuple(status.latestVersion);
    var minTuple := VersionTuple(status.minSupportedVersion);
    status := status.(updateAvailable := TupleLess(localTuple, latestTuple));
    status := status.(requiresUpdate := status.updateAvailable);
    status := status.(forcedBlock := Truthy(status.minSupportedVersion) && TupleLess(localTuple, minTuple));
    var changelog := Get(manifest, "changelog", Null);
    if status.forcedBlock {
      status := status.(message := if !Truthy(changelog) then Str(RequiredMessage) else Str(StrOf(changelog)));
    } else if status.updateAvailable {
      status := status.(message := if Truthy(changelog) then changelog else Str(AvailableMessage));
    }
  }

  /**
   * Versions compare as numbers, not as text: 1.10 is newer than 1.9, and
   * a running version equal to the latest one is never offered an update.
   */
  lemma NumericOrder(ns: seq<nat>)
    requires |ns| >= 1
    ensures TupleLess(VersionTuple(Str(JoinDots([1, 9]))), VersionTuple(Str(JoinDots([1, 10]))))
    ensures !TupleLess(VersionTuple(Str(JoinDots(ns))), VersionTuple(Str(JoinDots(ns))))
  {
    VersionRoundTrip([1, 9]);
    VersionRoundTrip([1, 10]);
    assert [1, 9][1..] == [9] && [1, 10][1..] == [10];
    TupleOrder(VersionTuple(Str(JoinDots(ns))), [], []);
  }
}
