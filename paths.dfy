/** Windows path rules as the program meets them through `os.path.join` and
    `os.path.basename` (`ntpath`; the tool runs on Windows, where both `\`
    and `/` separate). Drives are the letter form `X:`; UNC shares are not
    modelled. */
module Paths {
  import opened Text

  const Seps: set<char> := {'/', '\\'}

  /** `ntpath.splitroot` finds a drive: a second character `:` after a
      first character that is not a separator. */
  predicate HasDrive(p: string)
  {
    |p| >= 2 && p[0] !in Seps && p[1] == ':'
  }

  /** The drive of `p`, `X:`, or "" when it has none. */
  function Drive(p: string): (d: string)
    ensures |d| == 0 || |d| == 2
    ensures |d| <= |p| && d == p[..|d|]
  {
    if HasDrive(p) then p[..2] else ""
  }

  /** A separator right after the drive: the path is absolute on its drive
      (`\Windows`, `X:\Windows`). */
  predicate IsRooted(p: string)
  {
    |Drive(p)| < |p| && p[|Drive(p)|] in Seps
  }

  /** Neither a drive nor a root: `os.path.join` appends it to what comes before. */
  predicate IsRelative(p: string)
  {
    !HasDrive(p) && !IsRooted(p)
  }

  /** A directory name as `os.listdir` gives it: not empty, no separator, no drive. */
  predicate IsPlainName(name: string)
  {
    && name != []
    && (forall i :: 0 <= i < |name| ==> name[i] !in Seps)
    && !HasDrive(name)
  }

  /** A root after which a relative part follows directly: empty, ending in
      a separator, or a bare drive `X:`. */
  predicate NeedsNoSep(root: string)
  {
    root == [] || root[|root| - 1] in Seps || root == Drive(root)
  }

  /** `os.path.join(root, name)` with two components, as `ntpath.join`
      computes it:
      - a name with a drive other than the root's, or with a drive and a
        root, replaces the root entirely;
      - a name with a root but no drive keeps only the root's drive;
      - a name with the root's drive but no root is joined like the rest
        after its drive;
      - a relative name follows the root, with `\` between them unless the
        root is empty, ends in a separator or is a bare drive. */
  function Join(root: string, name: string): (p: string)
    ensures IsRelative(name) && NeedsNoSep(root) ==> p == root + name
    ensures IsRelative(name) && !NeedsNoSep(root) ==> p == root + "\\" + name
    ensures HasDrive(name) && (Drive(name) != Drive(root) || IsRooted(name)) ==> p == name
    ensures HasDrive(name) && Drive(name) == Drive(root) && !IsRooted(name) ==> p == JoinRelative(root, name[2..])
    ensures !HasDrive(name) && IsRooted(name) ==> p == Drive(root) + name
  {
    if HasDrive(name) then
      if Drive(name) != Drive(root) || IsRooted(name) then name
      else JoinRelative(root, name[2..])
    else if IsRooted(name) then Drive(root) + name
    else JoinRelative(root, name)
  }

  /** A relative part after a root: directly after an empty root, one
      ending in a separator or a bare drive, otherwise after a `\`. This is
      also how `os.walk` builds the path of a subdirectory. */
  function JoinRelative(root: string, rest: string): (p: string)
    ensures NeedsNoSep(root) ==> p == root + rest
    ensures !NeedsNoSep(root) ==> p == root + "\\" + rest
  {
    if NeedsNoSep(root) then root + rest else root + "\\" + rest
  }

  /** `os.path.basename(p)`: what follows the last separator after the drive. */
  function Basename(p: string): (r: string)
    ensures forall i :: 0 <= i < |r| ==> r[i] !in Seps
    ensures |r| <= |p| - |Drive(p)| && r == p[|p| - |r|..]
    ensures |r| < |p| - |Drive(p)| ==> p[|p| - |r| - 1] in Seps
  {
    AfterLast(p[|Drive(p)|..], Seps)
  }

  /** Joining a plain directory name onto any root and taking the basename
      gives the name back; this is how a node path maps to its metadata key. */
  lemma BasenameOfJoin(root: string, name: string)
    requires IsPlainName(name)
    ensures Basename(Join(root, name)) == name
  {
    var p := Join(root, name);
    var d := |Drive(p)|;
    if root == [] {
      assert p == name && d == 0;
      AfterLastNone(name, Seps);
    } else if root == Drive(root) && root[|root| - 1] !in Seps {
      assert p == root + name && p[..2] == root;
      assert p[d..] == name;
      AfterLastNone(name, Seps);
    } else if root[|root| - 1] in Seps {
      assert p == root + name;
      assert d <= |root| - 1 by {
        if d == 2 { assert p[1] == ':' && root[1] == ':'; }
      }
      assert p[d..] == root[d..|root| - 1] + [root[|root| - 1]] + name;
      AfterLastOfJoined(root[d..|root| - 1], root[|root| - 1], name, Seps);
    } else {
      assert p == root + "\\" + name;
      assert d <= |root| by {
        if d == 2 { assert p[1] == ':'; }
      }
      assert p[d..] == root[d..] + ['\\'] + name;
      AfterLastOfJoined(root[d..], '\\', name, Seps);
    }
  }

  /** Two plain names joined onto the same root give the same path only when
      they are the same name. */
  lemma JoinInjective(root: string, a: string, b: string)
    requires IsPlainName(a) && IsPlainName(b)
    requires Join(root, a) == Join(root, b)
    ensures a == b
  {
    BasenameOfJoin(root, a);
    BasenameOfJoin(root, b);
  }

  /** A path with a drive and a root, such as a local repository
      `D:\repos\node`, replaces whatever root it is joined onto. */
  lemma AbsoluteNameReplacesRoot(root: string, name: string)
    requires HasDrive(name) && IsRooted(name)
    ensures Join(root, name) == name
  {
  }

  /** A path with a root but no drive, such as `\repos\node`, lands on the
      root's drive. */
  lemma RootedNameKeepsDrive(name: string)
    requires !HasDrive(name) && IsRooted(name)
    ensures Join("C:\\cn", name) == "C:" + name
  {
  }
}
