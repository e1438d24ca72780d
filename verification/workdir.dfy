/** The extension's working directory, as the resolver sees it.

    Every file and directory is keyed by its path relative to the working
    directory ("crates-lsp-0.4.2/crates-lsp"). A top-level entry is a key
    without '/'; deleting an entry recursively removes the key itself and
    every key below it. Permissions, symbolic links and partial deletion are
    not modelled: `fs::metadata(..).is_file()`, `create_dir_all` and
    `remove_dir_all` are reduced to what they do to this map. */
module Workdir {
  import opened Results
  import Text

  datatype Node = File | Dir

  type World = map<string, Node>

  /** `fs::metadata(p)` succeeds and reports a regular file. */
  predicate IsFile(w: World, p: string) {
    p in w && w[p] == File
  }

  /** Path `k` is the entry `n` or lies somewhere below it. */
  predicate Under(k: string, n: string) {
    k == n || n + "/" <= k
  }

  /** The top-level entry that path `k` belongs to. */
  function TopName(k: string): string {
    Text.Before(k, '/')
  }

  /** Every path lies under its own top-level entry. */
  lemma UnderTopName(k: string)
    ensures Under(k, TopName(k))
    ensures Text.Lacks(TopName(k), '/')
  {
    var n := TopName(k);
    if |n| < |k| {
      assert k == n + "/" + k[|n| + 1..];
    }
  }

  /** A path lies under at most one top-level entry: the entry named by the
      part of the path before its first '/'. */
  lemma TopNameOfUnder(k: string, n: string)
    requires Text.Lacks(n, '/')
    requires Under(k, n)
    ensures TopName(k) == n
  {
    if k == n {
      Text.BeforeOfLacking(n, '/');
    } else {
      assert k == n + ['/'] + k[|n| + 1..];
      Text.SplitJoined(n, '/', k[|n| + 1..]);
    }
  }

  /** Message for `create_dir_all` on a path that already names a file. */
  const FileInTheWay: string := "a file is in the way"

  /** `fs::create_dir_all(d)`: succeeds without change when `d` is already a
      directory, fails when `d` is a file, and otherwise creates it unless
      the operating system refuses (`fault`). */
  function CreateDirAll(w: World, d: string, fault: Option<string>): (r: Result<World>)
    ensures r.Ok? <==> (d in w && w[d] == Dir) || (d !in w && fault.None?)
    ensures r.Ok? ==> r.value.Keys == w.Keys + {d} && r.value[d] == Dir
    ensures r.Ok? ==> forall k :: k in w && k != d ==> r.value[k] == w[k]
  {
    if d in w then
      if w[d] == Dir then Ok(w) else Err(FileInTheWay)
    else
      match fault
      case Some(e) => Err(e)
      case None => Ok(w[d := Dir])
  }

  /** The paths of `names` inside directory `d`. */
  function Inside(d: string, names: set<string>): (r: set<string>)
    ensures forall k :: k in r ==> Under(k, d)
  {
    set n | n in names :: d + "/" + n
  }

  /** What unpacking an archive with entries `names` into `d` leaves behind. */
  function Extract(w: World, d: string, names: set<string>): (r: World)
    ensures forall n :: n in names ==> IsFile(r, d + "/" + n)
    ensures w.Keys <= r.Keys
    ensures forall k :: k in r && !Under(k, d) ==> k in w && r[k] == w[k]
  {
    var added := Inside(d, names);
    map k | k in w.Keys + added :: if k in added then File else w[k]
  }

  /** Being below is transitive: what lies under `m`, which lies under `n`,
      lies under `n`. */
  lemma UnderTransitive(k: string, m: string, n: string)
    requires Under(k, m) && Under(m, n)
    ensures Under(k, n)
  {
    if k != m && m != n {
      assert (n + "/") <= m && |n + "/"| <= |m|;
      assert k[..|n + "/"|] == m[..|n + "/"|];
    }
  }

  /** `fs::remove_dir_all(n)` when it succeeds. For a top-level entry `n` it
      removes exactly the paths whose top-level name is `n`: everything in
      the entry, and nothing in any other entry. */
  function RemoveAll(w: World, n: string): (r: World)
    ensures r.Keys <= w.Keys
    ensures forall k :: k in r ==> r[k] == w[k]
    ensures n !in r
    ensures Text.Lacks(n, '/') ==> forall k :: k in r <==> k in w && TopName(k) != n
  {
    var r := map k | k in w && !Under(k, n) :: w[k];
    assert Text.Lacks(n, '/') ==> forall k :: k in r <==> k in w && TopName(k) != n by {
      if Text.Lacks(n, '/') {
        forall k | k in w
          ensures Under(k, n) <==> TopName(k) == n
        {
          UnderTopName(k);
          if Under(k, n) {
            TopNameOfUnder(k, n);
          }
        }
      }
    }
    r
  }

  /** The paths `RemoveAll` keeps are exactly those outside the entry. */
  lemma RemoveAllKeeps(w: World, n: string, k: string)
    ensures k in RemoveAll(w, n) <==> k in w && !Under(k, n)
  {
  }
}
