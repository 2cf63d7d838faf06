/** Installing a downloaded index: verify its signature, back up the old index, copy the new
    files over and roll back on failure. A copy that fails leaves arbitrary content behind. */
module IndexUpdate {
  import opened Wrappers

  type Content = string

  datatype Verification = Valid | Invalid | CannotVerify

  /** Outcome of a file copy whose source exists: done, or failed with whatever the destination
      holds then. */
  datatype Copy = Copied | Broken(left: Option<Content>)

  datatype UpdateError = DownloadFailed | VerificationError | BadSignature | MissingSignature | CopyFailed

  /** Everything the environment decides: the unpacked files, the separately downloaded
      signature, the verifier, and how each file operation turns out. */
  datatype World = World(
    staged: Content, archived: Option<Content>, downloaded: Option<Option<Content>>, enforce: bool,
    verify: (Content, Content) -> Verification,
    backup: Copy, installIndex: Copy, installSignature: Copy, removeBackup: bool, restore: Copy)

  /** The signature to check: a separately downloaded one replaces one from the archive. */
  function Signature(w: World): Option<Content> {
    match w.downloaded
    case Some(s) => s
    case None => w.archived
  }

  /** This is the signature that is checked. */
  ghost predicate Checks(w: World, s: Content) {
    w.downloaded == Some(Some(s)) || (w.downloaded.None? && w.archived == Some(s))
  }

  function After(copy: Copy, source: Content): Option<Content> {
    match copy
    case Copied => Some(source)
    case Broken(left) => left
  }

  /** Signature checking accepts the staged index. */
  predicate Trusted(w: World) {
    && w.downloaded != Some(None)
    && match Signature(w)
       case Some(s) => w.verify(w.staged, s) == Valid
       case None => !w.enforce
  }

  class IndexStore {
    var index: Option<Content>
    var signature: Option<Content>
    var backup: Option<Content>

    /** The deferred `oldIndex.CopyTo(indexPath)`: does nothing once the backup is gone. */
    method RestoreIndex(outcome: Copy)
      modifies this`index
      ensures index == if backup.Some? then After(outcome, backup.value) else old(index)
    {
      match backup {
        case None =>
        case Some(content) => index := After(outcome, content);
      }
    }

    method Download(w: World) returns (err: Option<UpdateError>)
      requires backup == None
      modifies this
      // an error leaves an index that was there as it was, given that the rollback succeeds
      ensures err.Some? && old(index).Some? && w.restore == Copied ==> index == old(index)
      // before the backup is made nothing is touched at all
      ensures !Trusted(w) ==> err.Some? && index == old(index) && signature == old(signature)
      // nothing untrusted is ever installed
      ensures err.None? ==> Trusted(w) && signature == if Signature(w).Some? then Signature(w) else old(signature)
      // a successful update has installed the staged index, unless the backup could not be deleted
      ensures err.None? ==> index == if old(index).Some? && !w.removeBackup then After(w.restore, old(index).value) else Some(w.staged)
      // what trusted is, field by field: the signature that counts is the downloaded one if one was asked
      // for, else that of the archive; it must be there when that is enforced, and be valid if it is
      ensures err.None? && w.downloaded.Some? ==>
        w.downloaded.value.Some? && signature == w.downloaded.value && w.verify(w.staged, w.downloaded.value.value) == Valid
      ensures err.None? && w.downloaded.None? && w.archived.Some? ==>
        signature == w.archived && w.verify(w.staged, w.archived.value) == Valid
      ensures err.None? && w.downloaded.None? && w.archived.None? ==> signature == old(signature) && !w.enforce
      // each refusal has its own error
      ensures err == Some(DownloadFailed) <==> w.downloaded == Some(None)
      ensures err == Some(MissingSignature) <==> w.downloaded.None? && w.archived.None? && w.enforce
      ensures err == Some(BadSignature) <==> exists s :: Checks(w, s) && w.verify(w.staged, s) == Invalid
      ensures err == Some(VerificationError) <==> exists s :: Checks(w, s) && w.verify(w.staged, s) == CannotVerify
      // a successful update whose backup is gone has installed what was staged, and one whose backup stays
      // and is copied back has not
      ensures err.None? && (old(index).None? || w.removeBackup) ==> index == Some(w.staged)
      ensures err.None? && old(index).Some? && !w.removeBackup && w.restore == Copied ==> index == old(index)
      // a copy that fails leaves behind what it leaves
      ensures old(index).Some? && w.restore.Broken? && (if err.None? then !w.removeBackup else Trusted(w) && w.backup == Copied) ==>
        index == w.restore.left
      ensures old(index).None? && Trusted(w) && w.installIndex.Broken? ==> index == w.installIndex.left
      // and it succeeds exactly when the index is trusted and every copy works
      ensures err.None? <==>
        Trusted(w) && (old(index).Some? ==> w.backup == Copied) && w.installIndex == Copied
        && (Signature(w).Some? ==> w.installSignature == Copied)
    {
      var tmpSignature := w.archived;
      match w.downloaded {
        case None =>
        case Some(None) => return Some(DownloadFailed);
        case Some(Some(s)) => tmpSignature := Some(s);
      }
      match tmpSignature {
        case Some(s) =>
          match w.verify(w.staged, s) {
            case CannotVerify => return Some(VerificationError);
            case Invalid => return Some(BadSignature);
            case Valid =>
          }
        case None =>
          if w.enforce {
            return Some(MissingSignature);
          }
      }
      var restoring := false;
      if index.Some? {
        if w.backup != Copied {
          return Some(CopyFailed);
        }
        backup := index;
        restoring := true;
      }
      // the old signature is never backed up: the code looks for it in the temporary directory
      index := After(w.installIndex, w.staged);
      if w.installIndex != Copied {
        if restoring { RestoreIndex(w.restore); }
        return Some(CopyFailed);
      }
      if tmpSignature.Some? {
        signature := After(w.installSignature, tmpSignature.value);
        if w.installSignature != Copied {
          if restoring { RestoreIndex(w.restore); }
          return Some(CopyFailed);
        }
      }
      if w.removeBackup {
        backup := None;
      }
      if restoring { RestoreIndex(w.restore); }
      err := None;
    }
  }
}
