/** Model of `pickReleaseAsset` in src/lib/github.ts: which file of a GitHub release the
    download page offers for a system. Asset names are lower-cased and matched against two
    regular expressions per system, then the candidates are searched by preferred file
    extension, with the first candidate as the fallback. */
module ReleaseAssets {
  import opened Common

  datatype Asset = Asset(name: string, downloadUrl: string, size: int)

  datatype Release = Release(
    tagName: string,
    name: Option<string>,
    publishedAt: string,
    htmlUrl: string,
    body: Option<string>,
    assets: seq<Asset>)

  datatype Target = Windows | Mac

  // ---------------------------------------------------------------------------------------
  // Matching names
  // ---------------------------------------------------------------------------------------

  /** `toLowerCase` on the letters A to Z; every other character is kept. */
  function LowerChar(c: char): char {
    if 'A' <= c <= 'Z' then (c as int + 32) as char else c
  }

  function Lower(s: string): (r: string)
    ensures |r| == |s|
  {
    seq(|s|, i requires 0 <= i < |s| => LowerChar(s[i]))
  }

  /** Text without capital letters is its own lower case. */
  lemma LowerNoCapitals(s: string)
    requires forall i | 0 <= i < |s| :: !('A' <= s[i] <= 'Z')
    ensures Lower(s) == s
  {
  }

  /** The first pattern: `/win|windows|\.exe$|\.msi$|\.zip$/` for Windows,
      `/mac|osx|darwin|\.dmg$|\.pkg$|\.zip$/` for macOS. */
  predicate LooksLike(t: Target, n: string) {
    match t
    case Windows =>
      Contains(n, "win") || Contains(n, "windows") || EndsWith(n, ".exe") || EndsWith(n, ".msi") || EndsWith(n, ".zip")
    case Mac =>
      Contains(n, "mac") || Contains(n, "osx") || Contains(n, "darwin")
      || EndsWith(n, ".dmg") || EndsWith(n, ".pkg") || EndsWith(n, ".zip")
  }

  /** A `win` that is not the end of `darwin`. */
  predicate StrayWin(n: string) {
    exists i | 0 <= i <= |n| - 3 :: StartsAt(n, "win", i) && !(i >= 3 && StartsAt(n, "dar", i - 3))
  }

  /** The rules a name is judged by: the source's, or the source's with the macOS
      exclusion no longer matching the `win` inside `darwin`. */
  datatype Rules = AsWritten | DarwinAware

  /** The second pattern: `/mac|dmg|pkg/` for Windows, `/win|windows|\.exe|\.msi/` for
      macOS (with `DarwinAware`, a `win` counts only outside `darwin`). */
  predicate LooksOther(rules: Rules, t: Target, n: string) {
    match t
    case Windows => Contains(n, "mac") || Contains(n, "dmg") || Contains(n, "pkg")
    case Mac =>
      (if rules == AsWritten then Contains(n, "win") else StrayWin(n))
      || Contains(n, "windows") || Contains(n, ".exe") || Contains(n, ".msi")
  }

  /** The filter: a lower-cased name that looks like the target and not like the other
      system. */
  predicate IsCandidate(rules: Rules, t: Target, n: string) {
    LooksLike(t, n) && !LooksOther(rules, t, n)
  }

  /** `release.assets.map(...).filter(...)`, kept in asset order. */
  function Candidates(rules: Rules, assets: seq<Asset>, t: Target): (c: seq<Asset>)
    ensures |c| <= |assets|
    ensures forall i | 0 <= i < |c| :: IsCandidate(rules, t, Lower(c[i].name))
    decreases |assets|
  {
    if assets == [] then []
    else (if IsCandidate(rules, t, Lower(assets[0].name)) then [assets[0]] else []) + Candidates(rules, assets[1..], t)
  }

  /** `preferredExt`. */
  function PreferredExt(t: Target): (exts: seq<string>)
    ensures |exts| == 3
  {
    if t == Windows then [".exe", ".msi", ".zip"] else [".dmg", ".pkg", ".zip"]
  }

  /** `candidates.find(({ n }) => n.endsWith(ext))`. */
  function FindWithExt(cands: seq<Asset>, ext: string): Option<Asset>
    decreases |cands|
  {
    if cands == [] then None
    else if EndsWith(Lower(cands[0].name), ext) then Some(cands[0])
    else FindWithExt(cands[1..], ext)
  }

  /** The `for (const ext of preferredExt)` loop: the hit for the first extension that has
      one. It is a candidate ending with one of the extensions, and there is none exactly
      when no candidate ends with any of them. */
  function FirstHit(cands: seq<Asset>, exts: seq<string>): (r: Option<Asset>)
    ensures r.Some? ==> r.value in cands && exists k | 0 <= k < |exts| :: EndsWith(Lower(r.value.name), exts[k])
    ensures r.None? <==> forall k | 0 <= k < |exts| :: NoneWithExt(cands, exts[k])
    decreases |exts|
  {
    if exts == [] then None
    else
      var hit := FindWithExt(cands, exts[0]);
      FindWithExtFirst(cands, exts[0]);
      assert forall k | 0 <= k < |exts| - 1 :: exts[1..][k] == exts[k + 1];
      if hit.Some? then hit else FirstHit(cands, exts[1..])
  }

  /** The choice under the given rules: one of the candidates, and nothing exactly when
      there is none. */
  function Pick(rules: Rules, release: Release, t: Target): (r: Option<Asset>)
    ensures r.Some? ==> r.value in Candidates(rules, release.assets, t)
    ensures r.None? <==> Candidates(rules, release.assets, t) == []
  {
    var cands := Candidates(rules, release.assets, t);
    var hit := FirstHit(cands, PreferredExt(t));
    if hit.Some? then hit
    else if cands == [] then None
    else Some(cands[0])
  }

  /** `pickReleaseAsset(release, target)`: an asset of the release, and nothing exactly
      when no asset passes the target's filter. */
  function PickReleaseAsset(release: Release, t: Target): (r: Option<Asset>)
    ensures r.Some? ==> r.value in release.assets
    ensures r.None? <==> forall a | a in release.assets :: !IsCandidate(AsWritten, t, Lower(a.name))
  {
    CandidatesMembers(AsWritten, release.assets, t);
    var c := Candidates(AsWritten, release.assets, t);
    assert c != [] ==> c[0] in c;
    Pick(AsWritten, release, t)
  }

  // ---------------------------------------------------------------------------------------
  // What the choice is
  // ---------------------------------------------------------------------------------------

  /** The candidates are exactly the assets that pass the filter. */
  lemma {:induction false} CandidatesMembers(rules: Rules, assets: seq<Asset>, t: Target)
    ensures forall a :: a in Candidates(rules, assets, t) <==> a in assets && IsCandidate(rules, t, Lower(a.name))
    decreases |assets|
  {
    if assets != [] {
      CandidatesMembers(rules, assets[1..], t);
      assert assets == [assets[0]] + assets[1..];
    }
  }

  /** The first candidate with the extension, when there is one. */
  lemma {:induction false} FindWithExtFirst(cands: seq<Asset>, ext: string)
    ensures var hit := FindWithExt(cands, ext);
      && (hit.None? <==> forall j | 0 <= j < |cands| :: !EndsWith(Lower(cands[j].name), ext))
      && (hit.Some? ==> exists j | 0 <= j < |cands| :: hit.value == cands[j] && EndsWith(Lower(cands[j].name), ext)
                          && forall j' | 0 <= j' < j :: !EndsWith(Lower(cands[j'].name), ext))
    decreases |cands|
  {
    if cands != [] {
      FindWithExtFirst(cands[1..], ext);
      var hit := FindWithExt(cands, ext);
      if !EndsWith(Lower(cands[0].name), ext) {
        assert forall j | 1 <= j < |cands| :: cands[j] == cands[1..][j - 1];
        if hit.Some? {
          var j :| 0 <= j < |cands[1..]| && hit.value == cands[1..][j] && EndsWith(Lower(cands[1..][j].name), ext)
                   && forall j' | 0 <= j' < j :: !EndsWith(Lower(cands[1..][j'].name), ext);
          assert hit.value == cands[j + 1];
          forall j' | 0 <= j' < j + 1 ensures !EndsWith(Lower(cands[j'].name), ext) {
            if j' > 0 {
              assert cands[j'] == cands[1..][j' - 1];
            }
          }
        }
      }
    }
  }

  /** A found asset is the `j`-th candidate, the first with the extension. */
  lemma FindWithExtAt(cands: seq<Asset>, ext: string, j: nat)
    requires j < |cands| && EndsWith(Lower(cands[j].name), ext)
    requires forall j' | 0 <= j' < j :: !EndsWith(Lower(cands[j'].name), ext)
    ensures FindWithExt(cands, ext) == Some(cands[j])
  {
    FindWithExtFirst(cands, ext);
    var hit := FindWithExt(cands, ext);
    var i :| 0 <= i < |cands| && hit.value == cands[i] && EndsWith(Lower(cands[i].name), ext)
             && forall j' | 0 <= j' < i :: !EndsWith(Lower(cands[j'].name), ext);
    assert i == j;
  }

  /** No candidate has the extension. */
  predicate NoneWithExt(cands: seq<Asset>, ext: string) {
    forall j | 0 <= j < |cands| :: !EndsWith(Lower(cands[j].name), ext)
  }

  /** When no candidate has one of the first extensions, the loop goes on to the next. */
  lemma {:induction false} FirstHitSkips(cands: seq<Asset>, exts: seq<string>, k: nat)
    requires k <= |exts|
    requires forall k' | 0 <= k' < k :: NoneWithExt(cands, exts[k'])
    ensures FirstHit(cands, exts) == FirstHit(cands, exts[k..])
    decreases k
  {
    if k > 0 {
      FindWithExtFirst(cands, exts[0]);
      assert forall k' | 0 <= k' < k - 1 :: exts[1..][k'] == exts[k' + 1];
      FirstHitSkips(cands, exts[1..], k - 1);
      assert exts[1..][k - 1..] == exts[k..];
    }
  }

  /** The choice is the earliest candidate with the most preferred extension any candidate
      has. */
  lemma PickPrefers(rules: Rules, release: Release, t: Target, k: nat, j: nat)
    requires var c, exts := Candidates(rules, release.assets, t), PreferredExt(t);
      && k < 3 && j < |c| && EndsWith(Lower(c[j].name), exts[k])
      && (forall k' | 0 <= k' < k :: NoneWithExt(c, exts[k']))
      && (forall i | 0 <= i < j :: !EndsWith(Lower(c[i].name), exts[k]))
    ensures Pick(rules, release, t) == Some(Candidates(rules, release.assets, t)[j])
  {
    var c, exts := Candidates(rules, release.assets, t), PreferredExt(t);
    FirstHitSkips(c, exts, k);
    FindWithExtAt(c, exts[k], j);
  }

  /** With no candidate of a preferred extension, the choice is the first candidate, and
      nothing when there is none. */
  lemma PickFallback(rules: Rules, release: Release, t: Target)
    requires var c, exts := Candidates(rules, release.assets, t), PreferredExt(t);
      forall k | 0 <= k < 3 :: NoneWithExt(c, exts[k])
    ensures var c := Candidates(rules, release.assets, t);
      Pick(rules, release, t) == if c == [] then None else Some(c[0])
  {
    var c, exts := Candidates(rules, release.assets, t), PreferredExt(t);
    FirstHitSkips(c, exts, 3);
    assert exts[3..] == [];
  }

  /** The choice is one of the release's assets and passes the filter; there is no choice
      exactly when no asset passes it. */
  lemma PickIsCandidate(rules: Rules, release: Release, t: Target)
    ensures var r := Pick(rules, release, t);
      && (r.Some? ==> r.value in release.assets && IsCandidate(rules, t, Lower(r.value.name)))
      && (r.None? <==> forall a | a in release.assets :: !IsCandidate(rules, t, Lower(a.name)))
  {
    var c := Candidates(rules, release.assets, t);
    CandidatesMembers(rules, release.assets, t);
    if c != [] {
      assert c[0] in c;
    }
  }

  /** A Windows choice never names macOS: no `mac`, `dmg` or `pkg` in it. */
  lemma WindowsPickExcludesMac(release: Release)
    ensures var r := PickReleaseAsset(release, Windows);
      r.Some? ==> var n := Lower(r.value.name);
        !Contains(n, "mac") && !Contains(n, "dmg") && !Contains(n, "pkg")
  {
    PickIsCandidate(AsWritten, release, Windows);
  }

  /** A macOS choice never names Windows: no `win`, `windows`, `.exe` or `.msi` in it. */
  lemma MacPickExcludesWindows(release: Release)
    ensures var r := PickReleaseAsset(release, Mac);
      r.Some? ==> var n := Lower(r.value.name);
        !Contains(n, "win") && !Contains(n, "windows") && !Contains(n, ".exe") && !Contains(n, ".msi")
  {
    PickIsCandidate(AsWritten, release, Mac);
  }

  // ---------------------------------------------------------------------------------------
  // `darwin` in the macOS pattern
  // ---------------------------------------------------------------------------------------

  /** `darwin` holds `win`. */
  lemma DarwinHoldsWin(n: string)
    requires Contains(n, "darwin")
    ensures Contains(n, "win")
  {
    var i :| 0 <= i <= |n| - 6 && StartsAt(n, "darwin", i);
    assert n[i + 3..i + 6] == n[i..i + 6][3..6];
    assert StartsAt(n, "win", i + 3);
  }

  /** Under the source's rules a name with `darwin` is never a macOS candidate: the `darwin`
      alternative of the first pattern can only pick names the second pattern rejects. */
  lemma DarwinNeverMac(n: string)
    requires Contains(n, "darwin")
    ensures !IsCandidate(AsWritten, Mac, n)
  {
    DarwinHoldsWin(n);
  }

  // The name `app-darwin.dmg`, one fact per lemma.
  lemma DarwinNameLower(n: string)
    requires n == "app-darwin.dmg"
    ensures Lower(n) == n
  {
    LowerNoCapitals(n);
  }

  lemma DarwinNameMatches(n: string)
    requires n == "app-darwin.dmg"
    ensures Contains(n, "darwin") && EndsWith(n, ".dmg")
  {
    assert StartsAt(n, "darwin", 4);
  }

  lemma DarwinNameNoWindowsText(n: string)
    requires n == "app-darwin.dmg"
    ensures !Contains(n, "windows") && !Contains(n, ".exe") && !Contains(n, ".msi")
  {
    assert 'o' !in n && 'x' !in n && 's' !in n;
    AbsentForeign(n, "windows", 4);
    AbsentForeign(n, ".exe", 2);
    AbsentForeign(n, ".msi", 2);
  }

  lemma DarwinNameOneW(n: string, i: int)
    requires n == "app-darwin.dmg" && 0 <= i < |n| && n[i] == 'w'
    ensures i == 7
  {
  }

  lemma DarwinNameOneWin(n: string)
    requires n == "app-darwin.dmg"
    ensures !StrayWin(n)
  {
    assert StartsAt(n, "dar", 4);
    forall i | 0 <= i <= |n| - 3 && StartsAt(n, "win", i) ensures i == 7 {
      assert n[i..i + 3][0] == 'w';
      DarwinNameOneW(n, i);
    }
  }

  /** A release whose every asset has `darwin` in its name offers nothing for macOS, for
      example one whose only asset is `app-darwin.dmg`. */
  lemma DarwinDmgDropped(release: Release)
    requires forall a | a in release.assets :: Contains(Lower(a.name), "darwin")
    ensures PickReleaseAsset(release, Mac) == None
  {
    forall a | a in release.assets ensures !IsCandidate(AsWritten, Mac, Lower(a.name)) {
      DarwinNeverMac(Lower(a.name));
    }
    PickIsCandidate(AsWritten, release, Mac);
  }

  /** With `win` counted only outside `darwin`, a release whose only asset is
      `app-darwin.dmg` offers it, whatever its address and size. */
  lemma DarwinDmgPicked(release: Release)
    requires |release.assets| == 1 && release.assets[0].name == "app-darwin.dmg"
    ensures Pick(DarwinAware, release, Mac) == Some(release.assets[0])
  {
    var a := release.assets[0];
    DarwinNameLower(a.name);
    DarwinNameMatches(a.name);
    DarwinNameNoWindowsText(a.name);
    DarwinNameOneWin(a.name);
    assert IsCandidate(DarwinAware, Mac, Lower(a.name));
    assert release.assets == [a];
    assert Candidates(DarwinAware, release.assets, Mac) == [a];
    PickPrefers(DarwinAware, release, Mac, 0, 0);
  }

  /** The corrected rule keeps every candidate of the source's, changes nothing for
      Windows, and for macOS differs only on names whose every `win` ends a `darwin`. */
  lemma DarwinAwareWidens(t: Target, n: string)
    ensures IsCandidate(AsWritten, t, n) ==> IsCandidate(DarwinAware, t, n)
    ensures t == Windows || !Contains(n, "win") ==> (IsCandidate(DarwinAware, t, n) <==> IsCandidate(AsWritten, t, n))
  {
    if StrayWin(n) {
      var i :| 0 <= i <= |n| - 3 && StartsAt(n, "win", i) && !(i >= 3 && StartsAt(n, "dar", i - 3));
      assert Contains(n, "win");
    }
  }
}
