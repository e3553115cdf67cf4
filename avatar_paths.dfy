/**
 * The storage-path convention the avatar handlers share: a path is at most
 * 500 characters and contains a `/`, and its first segment names the owner.
 */
module AvatarPaths {
  import opened Js

  const MAX_PATH_LENGTH := 500
  const PATH_REQUIRED := "Valid avatar path is required"
  const INVALID_PATH_FORMAT := "Invalid avatar path format"

  /**
   * The basic format check `length <= 500 && includes('/')`. Equivalently, the
   * path is short enough and its `split('/')` has a segment after the owner's.
   */
  predicate WellFormedPath(path: string)
    ensures WellFormedPath(path) <==> |path| <= MAX_PATH_LENGTH && |Split(path, '/')| >= 2
  {
    SplitPieces(path, '/');
    |path| <= MAX_PATH_LENGTH && '/' in path
  }

  /**
   * `path.split('/')[0]`: the longest prefix of the path that holds no `/`;
   * in a path that has one, the owner is followed by it.
   */
  function Owner(path: string): (owner: string)
    ensures '/' !in owner
    ensures owner <= path
    ensures '/' in path ==> |owner| < |path| && path[|owner|] == '/'
    ensures '/' !in path ==> owner == path
  {
    SplitFirstPiece(path, '/');
    SplitPieces(path, '/');
    Split(path, '/')[0]
  }

  /** A path built as `owner/rest` with a `/`-free owner is owned by that owner. */
  lemma OwnerOfJoined(owner: string, rest: string)
    requires '/' !in owner
    ensures Owner(owner + "/" + rest) == owner
  {
    SplitAtSeparator(owner, rest, '/');
    SplitPieces(owner, '/');
  }
}
