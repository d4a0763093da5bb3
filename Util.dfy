/** Small shared vocabulary: optional values, command results, the errors the
    backend reports, and first-occurrence search in a sequence. */
module Util {

  datatype Option<+T> = None | Some(value: T)

  /** The errors the backend commands return as strings. `Io` stands for any
      failure reported by the file system or by saving the configuration. */
  datatype Error =
    | InvalidWorkspaceName   // "Invalid workspace name"
    | WorkspaceExists        // "Workspace already exists"
    | WorkspaceNotFound      // "Workspace not found"
    | LastWorkspace          // "Cannot delete the last workspace"
    | NoteNotFound           // "Note not found"
    | Io

  /** The `Result<T, String>` every command returns. */
  datatype Result<+T> = Ok(value: T) | Err(error: Error)

  /** Index of the first occurrence of `x` in `s`, as `str::find` and
      `Iterator::position` give it. */
  function IndexOf<T(==)>(s: seq<T>, x: T): (r: Option<nat>)
    ensures r.None? <==> x !in s
    ensures r.Some? ==> r.value < |s| && s[r.value] == x && x !in s[..r.value]
  {
    if |s| == 0 then None
    else if s[0] == x then Some(0)
    else
      match IndexOf(s[1..], x)
      case None => None
      case Some(k) =>
        assert s[1..][..k] == s[1..k + 1];
        Some(k + 1)
  }

  /** Searching a longer sequence: the first occurrence in `s` stays the
      first; without one, the search continues into `t`. */
  lemma {:induction false} IndexOfAppend<T>(s: seq<T>, t: seq<T>, x: T)
    ensures IndexOf(s + t, x) ==
      match IndexOf(s, x)
      case Some(k) => Some(k)
      case None => match IndexOf(t, x) case Some(j) => Some(|s| + j) case None => None
  {
    if |s| > 0 {
      assert (s + t)[1..] == s[1..] + t;
      IndexOfAppend(s[1..], t, x);
    } else {
      assert s + t == t;
    }
  }

  /** A position holding `x` with no `x` before it is what the search
      finds. */
  lemma IndexOfAt<T>(s: seq<T>, x: T, k: nat)
    requires k < |s| && s[k] == x && x !in s[..k]
    ensures IndexOf(s, x) == Some(k)
  {
    FirstUnique(s, x, IndexOf(s, x).value, k);
  }

  /** Only one position holds the first occurrence. */
  lemma FirstUnique<T>(s: seq<T>, x: T, j: nat, k: nat)
    requires j < |s| && s[j] == x && x !in s[..j]
    requires k < |s| && s[k] == x && x !in s[..k]
    ensures j == k
  {
  }
}
