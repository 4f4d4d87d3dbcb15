/** `to_repo_url`: a mirror URL turned into a `baseurl` that works for any
    release and architecture, by Python's `str.replace` of the concrete path
    segment with the `$releasever` / `$basearch` placeholders. */
module RepoUrl {
  import opened Outcomes

  /** `p` occurs in `s` starting at index `i`. */
  predicate OccursAt(s: string, p: string, i: nat) {
    i + |p| <= |s| && s[i..i + |p|] == p
  }

  /** `p in s` for strings. */
  predicate Contains(s: string, p: string) {
    exists i: nat :: i <= |s| && OccursAt(s, p, i)
  }

  /** `s.replace(p, t)` for a non-empty `p`: scanning left to right, each
      occurrence of `p` that does not overlap an earlier replaced one becomes `t`. */
  function ReplaceAll(s: string, p: string, t: string): (r: string)
    requires |p| > 0
    ensures |p| == |t| ==> |r| == |s|
    decreases |s|
  {
    if s == [] then []
    else if OccursAt(s, p, 0) then t + ReplaceAll(s[|p|..], p, t)
    else [s[0]] + ReplaceAll(s[1..], p, t)
  }

  /** The concrete segment `releases/{version}/Everything/{arch}/os`. */
  function ReleasePath(version: string, arch: string): (p: string)
    ensures |p| == 24 + |version| + |arch|
  {
    "releases/" + version + "/Everything/" + arch + "/os"
  }

  /** The replacement, with dnf's placeholder variables. */
  const TemplatePath: string := ReleasePath("$releasever", "$basearch")

  /** `to_repo_url(url, version, arch)`: the `assert` fails when the concrete
      segment is absent; otherwise every occurrence is replaced. */
  function ToRepoUrl(url: string, version: string, arch: string): (r: Result<string>)
    ensures r.Err? <==> !Contains(url, ReleasePath(version, arch))
    ensures r.Err? ==> r.error == AssertionError
    ensures r.Ok? ==> r.value == ReplaceAll(url, ReleasePath(version, arch), TemplatePath)
  {
    var p := ReleasePath(version, arch);
    if Contains(url, p) then Ok(ReplaceAll(url, p, TemplatePath)) else Err(AssertionError)
  }

  /** Replacing a pattern that does not occur changes nothing. */
  lemma {:induction false} ReplaceAbsent(s: string, p: string, t: string)
    requires |p| > 0 && !Contains(s, p)
    ensures ReplaceAll(s, p, t) == s
  {
    if s != [] {
      assert !OccursAt(s, p, 0);
      forall i: nat | OccursAt(s[1..], p, i) ensures false {
        assert s[1..][i..i + |p|] == s[i + 1..i + 1 + |p|];
        assert OccursAt(s, p, i + 1);
      }
      ReplaceAbsent(s[1..], p, t);
    }
  }

  /** The first occurrence of `p` is replaced and the text before it is kept. */
  lemma {:induction false} ReplaceFirst(a: string, p: string, b: string, t: string)
    requires |p| > 0
    requires forall i: nat :: i < |a| ==> !OccursAt(a + p + b, p, i)
    ensures ReplaceAll(a + p + b, p, t) == a + t + ReplaceAll(b, p, t)
  {
    var s := a + p + b;
    if a == [] {
      assert s == p + b && s[..|p|] == p && s[|p|..] == b;
    } else {
      assert !OccursAt(s, p, 0);
      assert s[1..] == a[1..] + p + b;
      forall i: nat | i < |a[1..]| ensures !OccursAt(a[1..] + p + b, p, i) {
        assert !OccursAt(s, p, i + 1);
        assert s[i + 1..i + 1 + |p|] == s[1..][i..i + |p|];
      }
      ReplaceFirst(a[1..], p, b, t);
    }
  }

  /** An occurrence in `b` is an occurrence in `x + b`, shifted by |x|. */
  lemma OccursAfter(x: string, b: string, p: string, i: nat)
    requires OccursAt(b, p, i)
    ensures OccursAt(x + b, p, |x| + i)
  {
    assert (x + b)[|x| + i..|x| + i + |p|] == b[i..i + |p|];
  }

  /** An occurrence in `x + b` that starts after `x` is one in `b`. */
  lemma OccursInTail(x: string, b: string, p: string, i: nat)
    requires OccursAt(x + b, p, i) && i >= |x|
    ensures OccursAt(b, p, i - |x|)
  {
    assert (x + b)[i..i + |p|] == b[i - |x|..i - |x| + |p|];
  }

  /** With exactly one occurrence, `to_repo_url` swaps that segment for the
      template and leaves the rest of the URL as it was. */
  lemma SingleOccurrence(url: string, a: string, b: string, version: string, arch: string)
    requires url == a + ReleasePath(version, arch) + b
    requires forall i: nat :: OccursAt(url, ReleasePath(version, arch), i) ==> i == |a|
    ensures ToRepoUrl(url, version, arch) == Ok(a + TemplatePath + b)
  {
    var p := ReleasePath(version, arch);
    assert url[|a|..|a| + |p|] == p;
    assert OccursAt(url, p, |a|);
    ReplaceFirst(a, p, b, TemplatePath);
    forall i: nat | OccursAt(b, p, i) ensures false {
      OccursAfter(a + p, b, p, i);
    }
    ReplaceAbsent(b, p, TemplatePath);
  }

  /** Without a '$' in the pattern, a prefix of the rewritten text that has
      no '$' was already a prefix of the original text. */
  lemma {:induction false} PrefixOfRewrite(s: string, w: string, version: string, arch: string)
    requires '$' !in version && '$' !in arch && '$' !in w
    requires OccursAt(ReplaceAll(s, ReleasePath(version, arch), TemplatePath), w, 0)
    ensures OccursAt(s, w, 0)
    decreases |s|
  {
    var p := ReleasePath(version, arch);
    var o := ReplaceAll(s, p, TemplatePath);
    if s == [] {
    } else if OccursAt(s, p, 0) {
      assert o == TemplatePath + ReplaceAll(s[|p|..], p, TemplatePath);
      assert o[9] == '$';
      if |w| > 9 {
        assert false;
      }
      assert w == TemplatePath[..|w|];
      ReleasePathShape(version, arch);
      assert s[..|w|] == p[..|w|];
    } else if w != [] {
      var o' := ReplaceAll(s[1..], p, TemplatePath);
      assert o == [s[0]] + o';
      assert o'[..|w| - 1] == w[1..];
      assert '$' !in w[1..];
      PrefixOfRewrite(s[1..], w[1..], version, arch);
      assert s[..|w|] == [s[0]] + s[1..][..|w| - 1];
    }
  }

  /** The concrete segment starts like the template and, for real version
      and architecture values, holds no '$'. */
  lemma ReleasePathShape(version: string, arch: string)
    ensures ReleasePath(version, arch)[..9] == TemplatePath[..9] == "releases/"
    ensures '$' !in version && '$' !in arch ==> '$' !in ReleasePath(version, arch)
  {
    var rest := version + "/Everything/" + arch + "/os";
    assert ReleasePath(version, arch) == "releases/" + rest;
    assert ("releases/" + rest)[..9] == "releases/";
    var trest := "$releasever" + "/Everything/" + "$basearch" + "/os";
    assert TemplatePath == "releases/" + trest;
    assert ("releases/" + trest)[..9] == "releases/";
  }

  /** No '$'-free pattern of at least 24 characters starting with "re" can
      begin inside the template. */
  lemma NotInsideTemplate(o: string, p: string, i: nat)
    requires '$' !in p && |p| >= 24 && p[..9] == TemplatePath[..9]
    requires i < |TemplatePath|
    ensures !OccursAt(TemplatePath + o, p, i)
  {
    var u := TemplatePath + o;
    assert p[0] == p[..9][0] == 'r' && p[1] == p[..9][1] == 'e';
    // a position of the pattern that the template contradicts
    var k := if i <= 9 then 9 - i else if i <= 32 then 32 - i else if i == 38 then 1 else 0;
    assert p[k] in p;
    assert u[i + k] != p[k];
    assert i + |p| <= |u| ==> u[i..i + |p|][k] == u[i + k];
  }

  /** When neither the version nor the architecture holds a '$', the
      rewritten URL no longer contains the concrete segment. */
  lemma {:induction false} RewriteRemovesSegment(s: string, version: string, arch: string)
    requires '$' !in version && '$' !in arch
    ensures !Contains(ReplaceAll(s, ReleasePath(version, arch), TemplatePath), ReleasePath(version, arch))
    decreases |s|
  {
    var p := ReleasePath(version, arch);
    var o := ReplaceAll(s, p, TemplatePath);
    ReleasePathShape(version, arch);
    if s == [] {
      assert !OccursAt(o, p, 0);
    } else if OccursAt(s, p, 0) {
      var o' := ReplaceAll(s[|p|..], p, TemplatePath);
      assert o == TemplatePath + o';
      RewriteRemovesSegment(s[|p|..], version, arch);
      forall i: nat | OccursAt(o, p, i) ensures false {
        if i < 44 {
          NotInsideTemplate(o', p, i);
        } else {
          OccursInTail(TemplatePath, o', p, i);
        }
      }
    } else {
      var o' := ReplaceAll(s[1..], p, TemplatePath);
      assert o == [s[0]] + o';
      RewriteRemovesSegment(s[1..], version, arch);
      forall i: nat | OccursAt(o, p, i) ensures false {
        if i == 0 {
          PrefixOfRewrite(s, p, version, arch);
        } else {
          OccursInTail([s[0]], o', p, i);
        }
      }
    }
  }

  /** Applying `to_repo_url` to its own output fails its `assert` whenever
      the version and architecture are real values (no '$' in them). */
  lemma RewriteTwiceFails(url: string, version: string, arch: string)
    requires '$' !in version && '$' !in arch
    requires ToRepoUrl(url, version, arch).Ok?
    ensures ToRepoUrl(ToRepoUrl(url, version, arch).value, version, arch) == Err(AssertionError)
  {
    RewriteRemovesSegment(url, version, arch);
  }

  /** Replacing a pattern by itself changes nothing. */
  lemma {:induction false} ReplaceBySelf(s: string, p: string)
    requires |p| > 0
    ensures ReplaceAll(s, p, p) == s
    decreases |s|
  {
    if s == [] {
    } else if OccursAt(s, p, 0) {
      ReplaceBySelf(s[|p|..], p);
      assert s == s[..|p|] + s[|p|..];
    } else {
      ReplaceBySelf(s[1..], p);
      assert s == [s[0]] + s[1..];
    }
  }

  /** The '$' condition above is needed: with the placeholders themselves as
      version and architecture, the rewrite is the identity and a second
      application succeeds. */
  lemma PlaceholdersAreFixpoint(url: string)
    requires Contains(url, TemplatePath)
    ensures ToRepoUrl(url, "$releasever", "$basearch") == Ok(url)
    ensures ToRepoUrl(ToRepoUrl(url, "$releasever", "$basearch").value, "$releasever", "$basearch") == Ok(url)
  {
    ReplaceBySelf(url, TemplatePath);
  }
}
