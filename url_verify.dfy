/** Checking a manually entered Git URL against a node's files
    (`verify_and_set_git_url` in gui.py): the candidate is cloned to a
    temporary directory, the relative file paths on both sides are collected,
    and their Jaccard similarity decides whether the URL is recorded. */
module UrlVerify {
  import opened Text
  import Paths
  import NodeManager

  /** One step of `os.walk`: a directory, relative to the walk's base ("" for
      the base itself), and the names of the files in it. */
  datatype WalkDir = WalkDir(rel: string, files: seq<string>)

  /** The absolute `root` that `os.walk` reports for a directory. */
  function WalkRoot(base: string, d: WalkDir): string
  {
    if d.rel == "" then base else Paths.JoinRelative(base, d.rel)
  }

  /** `os.path.join(rel_root, f)`. */
  function RelPath(d: WalkDir, f: string): string
  {
    Paths.Join(d.rel, f)
  }

  /** The local-side filter: not a ".pyc" file and ".git" nowhere in the
      absolute walk root. */
  predicate KeepLocal(base: string, d: WalkDir, f: string)
  {
    !EndsWith(f, ".pyc") && !Contains(WalkRoot(base, d), ".git")
  }

  /** Local paths contributed by the first files of one directory. */
  function LocalOfFiles(base: string, d: WalkDir, fs: seq<string>): set<string>
    decreases |fs|
  {
    if fs == [] then {}
    else
      var f := fs[|fs| - 1];
      LocalOfFiles(base, d, fs[..|fs| - 1]) + (if KeepLocal(base, d, f) then {RelPath(d, f)} else {})
  }

  /** The local file set of a walk. */
  function LocalFiles(base: string, walk: seq<WalkDir>): set<string>
    decreases |walk|
  {
    if walk == [] then {}
    else
      var d := walk[|walk| - 1];
      LocalFiles(base, walk[..|walk| - 1]) + LocalOfFiles(base, d, d.files)
  }

  /** Remote paths contributed by the first files of one directory. */
  function AllOfFiles(d: WalkDir, fs: seq<string>): set<string>
    decreases |fs|
  {
    if fs == [] then {} else AllOfFiles(d, fs[..|fs| - 1]) + {RelPath(d, fs[|fs| - 1])}
  }

  /** The remote file set of a walk: every file of every directory whose root
      does not contain ".git" (".pyc" files are kept on this side). */
  function RemoteFiles(base: string, walk: seq<WalkDir>): set<string>
    decreases |walk|
  {
    if walk == [] then {}
    else
      var d := walk[|walk| - 1];
      RemoteFiles(base, walk[..|walk| - 1]) + (if Contains(WalkRoot(base, d), ".git") then {} else AllOfFiles(d, d.files))
  }

  lemma {:induction false} LocalOfFilesMembers(base: string, d: WalkDir, fs: seq<string>, p: string)
    ensures p in LocalOfFiles(base, d, fs) <==> exists f :: f in fs && KeepLocal(base, d, f) && p == RelPath(d, f)
    decreases |fs|
  {
    if fs != [] {
      var init := fs[..|fs| - 1];
      LocalOfFilesMembers(base, d, init, p);
      assert fs == init + [fs[|fs| - 1]];
    }
  }

  /** A path is in the local set exactly when some walked file that is not a
      ".pyc" file and does not sit under a root containing ".git" has it as
      its relative path. */
  lemma {:induction false} LocalFilesMembers(base: string, walk: seq<WalkDir>, p: string)
    ensures p in LocalFiles(base, walk) <==>
      exists i, f :: 0 <= i < |walk| && f in walk[i].files && KeepLocal(base, walk[i], f) && p == RelPath(walk[i], f)
    decreases |walk|
  {
    if walk != [] {
      var init := walk[..|walk| - 1];
      var d := walk[|walk| - 1];
      LocalFilesMembers(base, init, p);
      LocalOfFilesMembers(base, d, d.files, p);
      if p in LocalFiles(base, walk) {
        if p in LocalFiles(base, init) {
          var i, f :| 0 <= i < |init| && f in init[i].files && KeepLocal(base, init[i], f) && p == RelPath(init[i], f);
          assert walk[i] == init[i];
        } else {
          var f :| f in d.files && KeepLocal(base, d, f) && p == RelPath(d, f);
          assert walk[|walk| - 1] == d;
        }
      } else {
        forall i, f | 0 <= i < |walk| && f in walk[i].files && KeepLocal(base, walk[i], f)
          ensures p != RelPath(walk[i], f)
        {
          if i < |walk| - 1 {
            assert walk[i] == init[i];
          }
        }
      }
    }
  }

  lemma {:induction false} AllOfFilesMembers(d: WalkDir, fs: seq<string>, p: string)
    ensures p in AllOfFiles(d, fs) <==> exists f :: f in fs && p == RelPath(d, f)
    decreases |fs|
  {
    if fs != [] {
      var init := fs[..|fs| - 1];
      AllOfFilesMembers(d, init, p);
      assert fs == init + [fs[|fs| - 1]];
    }
  }

  /** A path is in the remote set exactly when some walked file, `.pyc`
      included, under a root not containing ".git" has it as its relative
      path. */
  lemma {:induction false} RemoteFilesMembers(base: string, walk: seq<WalkDir>, p: string)
    ensures p in RemoteFiles(base, walk) <==>
      exists i, f :: 0 <= i < |walk| && f in walk[i].files && !Contains(WalkRoot(base, walk[i]), ".git") && p == RelPath(walk[i], f)
    decreases |walk|
  {
    if walk != [] {
      var init := walk[..|walk| - 1];
      var d := walk[|walk| - 1];
      RemoteFilesMembers(base, init, p);
      AllOfFilesMembers(d, d.files, p);
      if p in RemoteFiles(base, walk) {
        if p in RemoteFiles(base, init) {
          var i, f :| 0 <= i < |init| && f in init[i].files && !Contains(WalkRoot(base, init[i]), ".git") && p == RelPath(init[i], f);
          assert walk[i] == init[i];
        } else {
          var f :| f in d.files && p == RelPath(d, f);
          assert walk[|walk| - 1] == d;
        }
      } else {
        forall i, f | 0 <= i < |walk| && f in walk[i].files && !Contains(WalkRoot(base, walk[i]), ".git")
          ensures p != RelPath(walk[i], f)
        {
          if i < |walk| - 1 {
            assert walk[i] == init[i];
          }
        }
      }
    }
  }

  /** The loops that fill `local_files`. */
  method CollectLocalFiles(base: string, walk: seq<WalkDir>) returns (files: set<string>)
    ensures files == LocalFiles(base, walk)
  {
    files := {};
    var i := 0;
    while i < |walk|
      invariant 0 <= i <= |walk|
      invariant files == LocalFiles(base, walk[..i])
    {
      var d := walk[i];
      var root := WalkRoot(base, d);
      ghost var before := files;
      var j := 0;
      while j < |d.files|
        invariant 0 <= j <= |d.files|
        invariant files == before + LocalOfFiles(base, d, d.files[..j])
      {
        var f := d.files[j];
        assert d.files[..j + 1][..j] == d.files[..j];
        if !EndsWith(f, ".pyc") && !Contains(root, ".git") {
          files := files + {Paths.Join(d.rel, f)};
        }
        j := j + 1;
      }
      assert d.files[..|d.files|] == d.files;
      assert walk[..i + 1][..i] == walk[..i];
      i := i + 1;
    }
    assert walk[..|walk|] == walk;
  }

  /** The loops that fill `remote_files`. */
  method CollectRemoteFiles(base: string, walk: seq<WalkDir>) returns (files: set<string>)
    ensures files == RemoteFiles(base, walk)
  {
    files := {};
    var i := 0;
    while i < |walk|
      invariant 0 <= i <= |walk|
      invariant files == RemoteFiles(base, walk[..i])
    {
      var d := walk[i];
      assert walk[..i + 1][..i] == walk[..i];
      if !Contains(WalkRoot(base, d), ".git") {
        ghost var before := files;
        var j := 0;
        while j < |d.files|
          invariant 0 <= j <= |d.files|
          invariant files == before + AllOfFiles(d, d.files[..j])
        {
          assert d.files[..j + 1][..j] == d.files[..j];
          files := files + {Paths.Join(d.rel, d.files[j])};
          j := j + 1;
        }
        assert d.files[..|d.files|] == d.files;
      }
      i := i + 1;
    }
    assert walk[..|walk|] == walk;
  }

  /** Once the base path itself contains ".git" (a node named like
      "my.git-tools", say), every walk root does, and nothing is collected. */
  lemma {:induction false} DotGitBaseCollectsNothing(base: string, walk: seq<WalkDir>)
    requires Contains(base, ".git")
    ensures LocalFiles(base, walk) == {} && RemoteFiles(base, walk) == {}
    decreases |walk|
  {
    if walk != [] {
      var d := walk[|walk| - 1];
      DotGitBaseCollectsNothing(base, walk[..|walk| - 1]);
      if d.rel != "" {
        var root := Paths.JoinRelative(base, d.rel);
        ContainsExtended(base, ".git", root[|base|..]);
        assert base + root[|base|..] == root;
      }
      LocalOfDirEmpty(base, d, d.files);
    }
  }

  lemma {:induction false} LocalOfDirEmpty(base: string, d: WalkDir, fs: seq<string>)
    requires Contains(WalkRoot(base, d), ".git")
    ensures LocalOfFiles(base, d, fs) == {}
    decreases |fs|
  {
    if fs != [] {
      LocalOfDirEmpty(base, d, fs[..|fs| - 1]);
    }
  }

  /** The Jaccard index |L ∩ R| / |L ∪ R|, and 0 when both sets are empty. */
  function Similarity(local: set<string>, remote: set<string>): (s: real)
    ensures 0.0 <= s <= 1.0
    ensures local + remote == {} ==> s == 0.0
  {
    if local + remote != {} then
      IntersectionNotLarger(local, remote);
      (|local * remote| as real) / (|local + remote| as real)
    else 0.0
  }

  lemma IntersectionNotLarger(a: set<string>, b: set<string>)
    ensures |a * b| <= |a + b|
  {
    var i, u := a * b, a + b;
    assert u == (u - i) + i;
    assert (u - i) * i == {};
  }

  /** Similarity is 1 exactly when the two sets are equal and not empty. */
  lemma SimilarityOne(local: set<string>, remote: set<string>)
    ensures Similarity(local, remote) == 1.0 <==> local == remote && local != {}
  {
    var i, u := local * remote, local + remote;
    if Similarity(local, remote) == 1.0 {
      assert |i| == |u|;
      assert |u - i| + |i| == |u| by {
        assert u == (u - i) + i;
      }
      assert u - i == {};
      forall x | x in local ensures x in remote {
        assert x in u;
      }
      forall x | x in remote ensures x in local {
        assert x in u;
      }
    }
  }

  /** The automatic-association threshold: strictly above one half. */
  predicate IsMatch(similarity: real)
  {
    similarity > 0.5
  }

  /** Local {a, b, c} against remote {a, b, d} is 2/4 = 0.5, which does not
      associate automatically. */
  lemma HalfIsNotAMatch()
    ensures Similarity({"a", "b", "c"}, {"a", "b", "d"}) == 0.5
    ensures !IsMatch(Similarity({"a", "b", "c"}, {"a", "b", "d"}))
  {
    var l: set<string>, r: set<string> := {"a", "b", "c"}, {"a", "b", "d"};
    assert l * r == {"a", "b"};
    assert l + r == {"a", "b", "c", "d"};
  }

  /** What the verification found: the clone failed, or both sides were compared. */
  datatype Verdict = CloneError | Compared(similarity: real)

  /** Whether the URL ends up recorded: automatically above the threshold,
      otherwise exactly when the user confirms the override question. */
  function Associates(v: Verdict, userConfirms: bool): (r: bool)
    ensures v.Compared? && IsMatch(v.similarity) ==> r
    ensures !(v.Compared? && IsMatch(v.similarity)) ==> (r <==> userConfirms)
  {
    match v
    case Compared(s) => IsMatch(s) || userConfirms
    case CloneError => userConfirms
  }

  /** The node's directory: `os.path.join(custom_nodes_path, node_name)`. */
  function LocalBase(customRoot: string, name: string): (p: string)
    ensures EndsWith(p, name) || (Paths.HasDrive(name) && EndsWith(p, name[2..]))
  {
    Paths.Join(customRoot, name)
  }

  /** The validation clone's directory:
      `os.path.join(tempfile.gettempdir(), "comfynode_sync_validate", node_name)`. */
  function TempBase(tempRoot: string, name: string): (p: string)
    ensures EndsWith(p, name) || (Paths.HasDrive(name) && EndsWith(p, name[2..]))
  {
    Paths.Join(Paths.Join(tempRoot, "comfynode_sync_validate"), name)
  }

  /** `verify_and_set_git_url` after the clone: collects both file sets,
      computes the similarity and records the URL when `Associates` says so.
      Both walks start from directories named after the node; the clone
      outcome, the walks and the user's answer are inputs. */
  method VerifyAndSetGitUrl(store: NodeManager.MetadataStore, name: string, url: string, cloneSucceeds: bool,
                            customRoot: string, localWalk: seq<WalkDir>,
                            tempRoot: string, tempWalk: seq<WalkDir>, userConfirms: bool)
    returns (v: Verdict)
    modifies store
    ensures v == (if cloneSucceeds
                  then Compared(Similarity(LocalFiles(LocalBase(customRoot, name), localWalk),
                                           RemoteFiles(TempBase(tempRoot, name), tempWalk)))
                  else CloneError)
    ensures store.metadata == if Associates(v, userConfirms)
                              then NodeManager.Store(old(store.metadata), name, NodeManager.GitUrl, url)
                              else old(store.metadata)
  {
    if !cloneSucceeds {
      v := CloneError;
      if userConfirms {
        store.SetNodeGitUrl(name, url);
      }
      return;
    }
    var tempDir := TempBase(tempRoot, name);
    var localPath := LocalBase(customRoot, name);
    var similarity := CompareWalks(localPath, localWalk, tempDir, tempWalk);
    v := Compared(similarity);
    if similarity > 0.5 {
      store.SetNodeGitUrl(name, url);
    } else if userConfirms {
      store.SetNodeGitUrl(name, url);
    }
  }

  /** Both file sets and their similarity. */
  method CompareWalks(localPath: string, localWalk: seq<WalkDir>, tempDir: string, tempWalk: seq<WalkDir>)
    returns (similarity: real)
    ensures similarity == Similarity(LocalFiles(localPath, localWalk), RemoteFiles(tempDir, tempWalk))
  {
    var local := CollectLocalFiles(localPath, localWalk);
    var remote := CollectRemoteFiles(tempDir, tempWalk);
    similarity := Similarity(local, remote);
  }

  /** A node whose name contains ".git" has ".git" in both walk bases, so
      the similarity is 0 and only the user's override can record the URL. */
  lemma DotGitNameNeverMatches(name: string, customRoot: string, localWalk: seq<WalkDir>,
                               tempRoot: string, tempWalk: seq<WalkDir>)
    requires Contains(name, ".git")
    ensures Similarity(LocalFiles(LocalBase(customRoot, name), localWalk),
                       RemoteFiles(TempBase(tempRoot, name), tempWalk)) == 0.0
  {
    var localBase := LocalBase(customRoot, name);
    var tempBase := TempBase(tempRoot, name);
    BaseContainsName(localBase, name);
    BaseContainsName(tempBase, name);
    DotGitBaseCollectsNothing(localBase, localWalk);
    DotGitBaseCollectsNothing(tempBase, tempWalk);
  }

  /** A base ending in the node's name, or in what follows its drive,
      contains ".git" when the name does (".git" holds no `:`). */
  lemma BaseContainsName(base: string, name: string)
    requires Contains(name, ".git")
    requires EndsWith(base, name) || (Paths.HasDrive(name) && EndsWith(base, name[2..]))
    ensures Contains(base, ".git")
  {
    var tail := if EndsWith(base, name) then name else name[2..];
    if tail != name {
      assert !StartsWith(name, ".git") && !StartsWith(name[1..], ".git");
      assert name[1..][1..] == name[2..];
    }
    assert base == base[..|base| - |tail|] + tail;
    ContainsPrefixed(base[..|base| - |tail|], tail, ".git");
  }
}
