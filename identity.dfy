/**
 * How a configured repository is identified on disk: its clone URL, the
 * workspace path the clone goes to (`getGitPath`), and the separate root
 * that the reset and copy steps use (`PATH_STATIC + name`).
 */
module Identity {
  import opened Optional
  import opened JsText
  import opened NodePath
  import opened Config

  /** PATH_STATIC: the workspace root, relative to the working directory. */
  const StaticRoot: string := ".statictmp/"

  const UrlHost: string := "http://code.dapps.douban.com"
  const UrlPrefix: string := UrlHost + "/"
  const Placeholder: string := "{name}"
  const VcsSuffix: string := ".git"
  /** The URL used when a repository has no `url` key: "http://code.dapps.douban.com/{name}.git". */
  const UrlTemplate: string := UrlPrefix + Placeholder + VcsSuffix

  /** The template with its one placeholder replaced by the repository name. */
  function DefaultUrl(name: string): string {
    ReplaceFirst(UrlTemplate, Placeholder, name)
  }

  /** The clone URL: the `url` key when present, the filled-in template otherwise. */
  function RepoUrl(name: string, repo: Repo): string {
    if repo.url.Some? then repo.url.value else DefaultUrl(name)
  }

  /** getGitPath: where `git clone` puts the workspace, and what the existence test looks at. */
  function GetGitPath(url: string): string {
    StaticRoot + Basename(Trim(url), VcsSuffix)
  }

  /** PATH_STATIC + name: the directory the reset runs in and the root copy2app reads from. */
  function ResetRoot(name: string): string {
    StaticRoot + name
  }

  /**
   * The URL is the `url` value verbatim when the key is present; otherwise it
   * is the host prefix, the replacement text for the name, and ".git".
   */
  lemma RepoUrlShape(name: string, repo: Repo)
    ensures RepoUrl(name, repo) ==
      if repo.url.Some? then repo.url.value
      else UrlPrefix + Substitute(name, Placeholder, UrlPrefix, VcsSuffix) + VcsSuffix
  {
    DefaultUrlShape(name);
  }

  /** The placeholder occurs once in the template, right after the host prefix. */
  lemma PlaceholderPosition()
    ensures IndexOf(UrlTemplate, Placeholder) == Some(|UrlPrefix|)
  {
    assert OccursAt(UrlTemplate, Placeholder, |UrlPrefix|) by {
      assert UrlTemplate[|UrlPrefix|..|UrlPrefix| + |Placeholder|] == Placeholder;
    }
    forall j: nat | j < |UrlPrefix| ensures !OccursAt(UrlTemplate, Placeholder, j) {
      assert UrlTemplate[j] == UrlPrefix[j];
      assert UrlPrefix[j] != '{';
      assert UrlTemplate[j..j + |Placeholder|][0] != Placeholder[0];
    }
  }

  /**
   * The default URL is prefix, the replacement text for the name, and ".git";
   * the name is inserted verbatim when it holds no '$' (String.prototype.replace
   * interprets "$$", "$&", "$`" and "$'" in it).
   */
  lemma DefaultUrlShape(name: string)
    ensures DefaultUrl(name) == UrlPrefix + Substitute(name, Placeholder, UrlPrefix, VcsSuffix) + VcsSuffix
    ensures '$' !in name ==> DefaultUrl(name) == UrlPrefix + name + VcsSuffix
  {
    PlaceholderPosition();
    var t := UrlTemplate;
    var i := |UrlPrefix|;
    assert t[..i] == UrlPrefix;
    assert t[i + |Placeholder|..] == VcsSuffix;
    if '$' !in name {
      SubstitutePlain(name, Placeholder, UrlPrefix, VcsSuffix);
    }
  }

  /** A name without '$' is inserted verbatim between the host prefix and ".git". */
  lemma DefaultUrlPlain(name: string)
    requires '$' !in name
    ensures DefaultUrl(name) == UrlPrefix + name + VcsSuffix
  {
    DefaultUrlShape(name);
  }

  /** A "$$" in a name otherwise free of '$' comes out as one "$" in the URL. */
  lemma DollarPairCollapses(x: string, y: string)
    requires '$' !in x && '$' !in y
    ensures DefaultUrl(x + "$$" + y) == UrlPrefix + x + "$" + y + VcsSuffix
  {
    var name := x + "$$" + y;
    calc {
      DefaultUrl(name);
    == { DefaultUrlShape(name); }
      UrlPrefix + Substitute(name, Placeholder, UrlPrefix, VcsSuffix) + VcsSuffix;
    == { assert name == x + ['$', '$'] + y;
         SubstitutePattern(x, '$', y, Placeholder, UrlPrefix, VcsSuffix); }
      UrlPrefix + (x + "$" + y) + VcsSuffix;
    ==
      UrlPrefix + x + "$" + y + VcsSuffix;
    }
  }

  /** The workspace path is the root followed by one segment without '/'. */
  lemma GitPathIsOneSegment(url: string)
    ensures |GetGitPath(url)| >= |StaticRoot|
    ensures GetGitPath(url)[..|StaticRoot|] == StaticRoot
    ensures '/' !in GetGitPath(url)[|StaticRoot|..]
  {
    assert GetGitPath(url)[|StaticRoot|..] == Basename(Trim(url), VcsSuffix);
  }

  /** White space around the URL does not change the workspace path. */
  lemma GitPathIgnoresSpace(lead: string, core: string, tail: string)
    requires forall k :: 0 <= k < |lead| ==> IsSpace(lead[k])
    requires forall k :: 0 <= k < |tail| ==> IsSpace(tail[k])
    requires core != [] && !IsSpace(core[0]) && !IsSpace(core[|core| - 1])
    ensures GetGitPath(lead + core + tail) == StaticRoot + Basename(core, VcsSuffix)
  {
    TrimAround(lead, core, tail);
  }

  /**
   * A URL `…/foo` or `…/foo///`, with any white space around it, maps to the
   * workspace `.statictmp/foo`.
   */
  lemma GitPathOfPlainUrl(url: string, lead: string, dir: string, seg: string, trailing: nat, tail: string)
    requires url == lead + (dir + "/" + seg + Slashes(trailing)) + tail
    requires '/' !in seg && seg != "" && !HasProperSuffix(seg, VcsSuffix)
    requires forall k :: 0 <= k < |lead| ==> IsSpace(lead[k])
    requires forall k :: 0 <= k < |tail| ==> IsSpace(tail[k])
    requires dir == [] || !IsSpace(dir[0])
    requires !IsSpace(seg[|seg| - 1])
    ensures GetGitPath(url) == StaticRoot + seg
  {
    var core := dir + "/" + seg + Slashes(trailing);
    assert GetGitPath(lead + core + tail) == StaticRoot + Basename(core, VcsSuffix) by {
      CoreEnds(dir, seg, trailing);
      GitPathIgnoresSpace(lead, core, tail);
    }
    assert Basename(core, VcsSuffix) == seg by {
      BasenameOfSegment(dir, seg, trailing, VcsSuffix);
    }
  }

  /** A URL `…/foo.git` or `…/foo.git///`, with any white space around it, maps to the same workspace as `…/foo`. */
  lemma GitPathOfSuffixedUrl(url: string, lead: string, dir: string, seg: string, trailing: nat, tail: string)
    requires url == lead + (dir + "/" + (seg + VcsSuffix) + Slashes(trailing)) + tail
    requires '/' !in seg && seg != ""
    requires forall k :: 0 <= k < |lead| ==> IsSpace(lead[k])
    requires forall k :: 0 <= k < |tail| ==> IsSpace(tail[k])
    requires dir == [] || !IsSpace(dir[0])
    ensures GetGitPath(url) == StaticRoot + seg
  {
    var full := seg + VcsSuffix;
    assert HasProperSuffix(full, VcsSuffix) by {
      assert full[|full| - |VcsSuffix|..] == VcsSuffix;
    }
    assert full[..|full| - |VcsSuffix|] == seg;
    var core := dir + "/" + full + Slashes(trailing);
    assert GetGitPath(lead + core + tail) == StaticRoot + Basename(core, VcsSuffix) by {
      CoreEnds(dir, full, trailing);
      GitPathIgnoresSpace(lead, core, tail);
    }
    assert Basename(core, VcsSuffix) == seg by {
      BasenameOfSegment(dir, full, trailing, VcsSuffix);
    }
  }

  /** A URL `dir/seg.git`, with no white space at its start, maps to the workspace `.statictmp/seg`. */
  lemma GitPathOfRepoUrl(dir: string, seg: string)
    requires '/' !in seg && seg != ""
    requires dir == [] || !IsSpace(dir[0])
    ensures GetGitPath(dir + "/" + seg + VcsSuffix) == StaticRoot + seg
  {
    var url := dir + "/" + seg + VcsSuffix;
    assert url == "" + (dir + "/" + (seg + VcsSuffix) + Slashes(0)) + "";
    GitPathOfSuffixedUrl(url, "", dir, seg, 0, "");
  }

  /** A path `dir/seg///` starts and ends with characters that trim keeps. */
  lemma CoreEnds(dir: string, seg: string, trailing: nat)
    requires seg != [] && !IsSpace(seg[|seg| - 1])
    requires dir == [] || !IsSpace(dir[0])
    ensures var core := dir + "/" + seg + Slashes(trailing);
      core != [] && !IsSpace(core[0]) && !IsSpace(core[|core| - 1]) && Trim(core) == core
  {
    var core := dir + "/" + seg + Slashes(trailing);
    if dir == [] { assert core[0] == '/'; } else { assert core[0] == dir[0]; }
    if trailing == 0 { assert core[|core| - 1] == seg[|seg| - 1]; } else { assert core[|core| - 1] == '/'; }
    TrimUnchanged(core);
  }

  /** Trim removes exactly the white space around a core that starts and ends with other characters. */
  lemma TrimAround(lead: string, core: string, tail: string)
    requires forall k :: 0 <= k < |lead| ==> IsSpace(lead[k])
    requires forall k :: 0 <= k < |tail| ==> IsSpace(tail[k])
    requires core != [] && !IsSpace(core[0]) && !IsSpace(core[|core| - 1])
    ensures Trim(lead + core + tail) == core
  {
    var s := lead + core + tail;
    TrimStartSpec(s);
    var a := TrimStart(s);
    assert IsSpace(s[|lead|]) ==> false by { assert s[|lead|] == core[0]; }
    assert |a| == |core| + |tail|;
    assert a == core + tail;
    TrimEndSpec(a);
    var b := TrimEnd(a);
    assert IsSpace(a[|core| - 1]) ==> false;
    assert |b| == |core|;
  }

  /** For a name without '$' or '/', the clone target equals the reset and copy root. */
  lemma ClonePathOfPlainName(name: string)
    requires '$' !in name && '/' !in name && name != ""
    ensures GetGitPath(DefaultUrl(name)) == ResetRoot(name)
  {
    calc {
      GetGitPath(DefaultUrl(name));
    == { DefaultUrlPlain(name); }
      GetGitPath(UrlPrefix + name + VcsSuffix);
    == { assert UrlPrefix + name + VcsSuffix == UrlHost + "/" + name + VcsSuffix; }
      GetGitPath(UrlHost + "/" + name + VcsSuffix);
    == { GitPathOfRepoUrl(UrlHost, name); }
      StaticRoot + name;
    }
  }

  /**
   * An owner-qualified name `owner/project` is cloned to `.statictmp/project`,
   * while reset and copy2app address `.statictmp/owner/project`.
   */
  lemma ClonePathOfOwnerName(owner: string, project: string)
    requires '$' !in owner && '$' !in project
    requires '/' !in project && project != ""
    ensures GetGitPath(DefaultUrl(owner + "/" + project)) == StaticRoot + project
    ensures ResetRoot(owner + "/" + project) == StaticRoot + owner + "/" + project
    ensures GetGitPath(DefaultUrl(owner + "/" + project)) != ResetRoot(owner + "/" + project)
  {
    var name := owner + "/" + project;
    var clonePath := GetGitPath(DefaultUrl(name));
    OwnerClonePath(owner, project);
    var root := ResetRoot(name);
    assert root == StaticRoot + owner + "/" + project;
    assert |clonePath| < |root|;
  }

  /** `owner/project` is cloned to `.statictmp/project`. */
  lemma OwnerClonePath(owner: string, project: string)
    requires '$' !in owner && '$' !in project
    requires '/' !in project && project != ""
    ensures GetGitPath(DefaultUrl(owner + "/" + project)) == StaticRoot + project
  {
    var name := owner + "/" + project;
    assert '$' !in name;
    calc {
      GetGitPath(DefaultUrl(name));
    == { DefaultUrlPlain(name); }
      GetGitPath(UrlPrefix + name + VcsSuffix);
    == { assert UrlPrefix + name + VcsSuffix == (UrlPrefix + owner) + "/" + project + VcsSuffix; }
      GetGitPath((UrlPrefix + owner) + "/" + project + VcsSuffix);
    == { GitPathOfRepoUrl(UrlPrefix + owner, project); }
      StaticRoot + project;
    }
  }

  /**
   * For the default URL of a name without '$', the clone target equals the
   * reset and copy root exactly when the name is non-empty and holds no '/'.
   */
  lemma ClonePathMatchesResetRoot(name: string)
    requires '$' !in name
    ensures GetGitPath(DefaultUrl(name)) == ResetRoot(name) <==> (name != "" && '/' !in name)
  {
    if name != "" && '/' !in name {
      ClonePathOfPlainName(name);
    } else if name == "" {
      var host := UrlHost;
      var url := DefaultUrl(name);
      assert url == "" + (host + "/" + VcsSuffix + Slashes(0)) + "" by {
        DefaultUrlPlain(name);
      }
      GitPathOfPlainUrl(url, "", host, VcsSuffix, 0, "");
    } else {
      var k :| 0 <= k < |name| && name[k] == '/';
      GitPathIsOneSegment(DefaultUrl(name));
      assert ResetRoot(name)[|StaticRoot|..][k] == '/';
    }
  }
}
