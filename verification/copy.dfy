/** copyNewTargets (backupDirs.py:103-146): every directory of the source is
    offered for copying; an accepted one is hashed, copied, hashed again at the
    target, and only when the two aggregate digests are equal is the target's
    ledger appended to and the deletion of the source offered.

    The filesystem is replaced by what each source child carries: the tree
    getHashofDirs finds at the source, what `shutil.copytree` does, the tree
    the second getHashofDirs finds at the target, what opening the ledger does
    and what `shutil.rmtree` does. An exception's `args[0]` is a string. */
module Copy {
  import opened PyLib
  import opened Prompt
  import opened Ledger
  import opened DirectoryHash

  /** One item of `baseSourcePath.iterdir()`. */
  datatype SourceChild = SourceChild(
    name: string,
    isDir: bool,
    tree: Option<seq<Entry>>,
    copy: FsOutcome,
    copied: Option<seq<Entry>>,
    ledgerWrite: FsOutcome,
    removal: FsOutcome)

  /** What the loop does not vary: MD5, the source and target directories,
      and the keyboard. */
  datatype Setting = Setting(md5: Md5, sourceBase: string, targetBase: string, keys: seq<string>)

  /** An entry `(item.name, inst.args[0])` of `copyFailed`. */
  datatype Failure = Failure(name: string, detail: string)

  /** `args[0]` of the TypeError raised by unpacking the -1 or -2 that
      getHashofDirs returns on failure. */
  const UnpackError: string := "cannot unpack non-iterable int object"

  /** `args[0]` of the TypeError raised by `copyFailed(item.name)` on a hash
      mismatch (backupDirs.py:136): the list is called, not appended to. */
  const NotCallableError: string := "'list' object is not callable"

  /** The four outcome lists, the ledger's text, the next unread key, and
      whether the keyboard ran out while a key was awaited. */
  datatype CopyState = CopyState(
    deleted: seq<string>,
    copied: seq<string>,
    notCopied: seq<string>,
    failed: seq<Failure>,
    ledger: string,
    keyPos: nat,
    blocked: bool)

  function Start(ledger: string, pos: nat): CopyState {
    CopyState([], [], [], [], ledger, pos, false)
  }

  /** The path of `item`, as `baseSourcePath.iterdir()` yields it. */
  function SourceTop(env: Setting, c: SourceChild): string {
    PureJoin(env.sourceBase, c.name)
  }

  /** `PurePath(targetPath, item.name)` (backupDirs.py:122, 124). */
  function TargetTop(env: Setting, c: SourceChild): string {
    PureJoin(env.targetBase, c.name)
  }

  function SourceHash(env: Setting, c: SourceChild): HashResult {
    HashOfDirs(env.md5, c.tree, SourceTop(env, c))
  }

  function TargetHash(env: Setting, c: SourceChild): HashResult {
    HashOfDirs(env.md5, c.copied, TargetTop(env, c))
  }

  /** The `except` clause: the exception's first argument is recorded. */
  function Fail(s: CopyState, name: string, detail: string): CopyState {
    s.(failed := s.failed + [Failure(name, detail)])
  }

  /** Everything after the first answer was yes (backupDirs.py:119-137 and
      the `except` of 141-144). */
  function Accepted(env: Setting, s: CopyState, c: SourceChild): CopyState {
    var hs := SourceHash(env, c);
    if !hs.Hashed? then Fail(s, c.name, UnpackError)
    else if c.copy.Raised? then Fail(s, c.name, c.copy.detail)
    else
      var ht := TargetHash(env, c);
      if !ht.Hashed? then Fail(s, c.name, UnpackError)
      else
        var s2 := s.(copied := s.copied + [c.name]);
        if hs.digest != ht.digest then Fail(s2, c.name, NotCallableError)
        else if c.ledgerWrite.Raised? then Fail(s2, c.name, c.ledgerWrite.detail)
        else
          var s3 := s2.(ledger := s2.ledger + LedgerText(ht.files));
          if s3.keyPos >= |env.keys| then s3.(blocked := true)
          else
            var s4 := s3.(keyPos := s3.keyPos + 1);
            if !IsYes(Upper(env.keys[s3.keyPos])) then s4
            else if c.removal.Raised? then Fail(s4, c.name, c.removal.detail)
            else s4.(deleted := s4.deleted + [c.name])
  }

  /** One pass of the loop body (backupDirs.py:112-144). */
  function Step(env: Setting, s: CopyState, c: SourceChild): CopyState {
    if s.blocked || !c.isDir then s
    else
      match Confirmation(env.keys, s.keyPos)
      case None => s.(blocked := true)
      case Some(a) =>
        var s1 := s.(keyPos := a.next);
        if IsYes(a.reply) then Accepted(env, s1, c)
        else s1.(notCopied := s1.notCopied + [c.name])
  }

  /** The loop over the children, as a fold from the left. */
  function Run(env: Setting, s: CopyState, children: seq<SourceChild>): CopyState {
    if children == [] then s
    else Step(env, Run(env, s, children[..|children| - 1]), children[|children| - 1])
  }

  /** copyNewTargets itself. The ledger file's text before and after is passed
      in and returned; the 5-tuple repeats `copiedSources` (backupDirs.py:146). */
  method CopyNewTargets(env: Setting, children: seq<SourceChild>, ledgerBefore: string, pos: nat)
    returns (result: (seq<string>, seq<string>, seq<string>, seq<string>, seq<Failure>),
             ledger: string, keyPos: nat, blocked: bool)
    ensures var s := Run(env, Start(ledgerBefore, pos), children);
            result == (s.deleted, s.copied, s.copied, s.notCopied, s.failed) &&
            ledger == s.ledger && keyPos == s.keyPos && blocked == s.blocked
  {
    var deletedSources: seq<string> := [];
    var copiedSources: seq<string> := [];
    var copyFailed: seq<Failure> := [];
    var notCopied: seq<string> := [];
    ledger := ledgerBefore;
    keyPos := pos;
    blocked := false;
    for i := 0 to |children|
      invariant Run(env, Start(ledgerBefore, pos), children[..i]) ==
                CopyState(deletedSources, copiedSources, notCopied, copyFailed, ledger, keyPos, blocked)
    {
      var item := children[i];
      assert children[..i + 1][..i] == children[..i];
      if !blocked && item.isDir {
        var a := ReadConfirmation(env.keys, keyPos);
        if a.None? {
          blocked := true;
        } else {
          keyPos := a.value.next;
          if IsYes(a.value.reply) {
            var hashSource := GetHashOfDirs(env.md5, item.tree, PureJoin(env.sourceBase, item.name));
            if !hashSource.Hashed? {
              copyFailed := copyFailed + [Failure(item.name, UnpackError)];
            } else if item.copy.Raised? {
              copyFailed := copyFailed + [Failure(item.name, item.copy.detail)];
            } else {
              var hashTarget := GetHashOfDirs(env.md5, item.copied, PureJoin(env.targetBase, item.name));
              if !hashTarget.Hashed? {
                copyFailed := copyFailed + [Failure(item.name, UnpackError)];
              } else {
                copiedSources := copiedSources + [item.name];
                if hashSource.digest != hashTarget.digest {
                  copyFailed := copyFailed + [Failure(item.name, NotCallableError)];
                } else if item.ledgerWrite.Raised? {
                  copyFailed := copyFailed + [Failure(item.name, item.ledgerWrite.detail)];
                } else {
                  ledger := WriteToMD5File(ledger, hashTarget.files);
                  if keyPos >= |env.keys| {
                    blocked := true;
                  } else {
                    var userResponse := Upper(env.keys[keyPos]);
                    keyPos := keyPos + 1;
                    if IsYes(userResponse) {
                      if item.removal.Raised? {
                        copyFailed := copyFailed + [Failure(item.name, item.removal.detail)];
                      } else {
                        deletedSources := deletedSources + [item.name];
                      }
                    }
                  }
                }
              }
            }
          } else {
            notCopied := notCopied + [item.name];
          }
        }
      }
    }
    assert children[..|children|] == children;
    result := (deletedSources, copiedSources, copiedSources, notCopied, copyFailed);
  }

  // ---------------------------------------------------------------------
  // One directory

  /** The copy is verified: both walks succeeded, the copy did not raise, and
      the two aggregate digests are equal. */
  predicate Verified(env: Setting, c: SourceChild) {
    SourceHash(env, c).Hashed? && c.copy.Done? && TargetHash(env, c).Hashed? &&
    SourceHash(env, c).digest == TargetHash(env, c).digest
  }

  /** The first prompt was reached and answered S. */
  predicate FirstYes(env: Setting, s: CopyState, c: SourceChild) {
    !s.blocked && c.isDir && Confirmation(env.keys, s.keyPos).Some? &&
    Upper(env.keys[Confirmation(env.keys, s.keyPos).value.next - 1]) == "S"
  }

  /** The deletion gate: a source joins `deletedSources` exactly when it is a
      directory, the first accepted key is S, the copy is verified, the ledger
      could be opened, the one key read after it is S, and `rmtree` did not
      raise. */
  lemma DeleteGate(env: Setting, s: CopyState, c: SourceChild)
    ensures var a := Confirmation(env.keys, s.keyPos);
            var go := FirstYes(env, s, c) && Verified(env, c) && c.ledgerWrite.Done? &&
                      a.value.next < |env.keys| && Upper(env.keys[a.value.next]) == "S" &&
                      c.removal.Done?;
            (go ==> Step(env, s, c).deleted == s.deleted + [c.name]) &&
            (!go ==> Step(env, s, c).deleted == s.deleted)
  {
    StepCases(env, s, c);
    var a := Confirmation(env.keys, s.keyPos);
    if FirstYes(env, s, c) {
      AcceptedDeleteGate(env, s.(keyPos := a.value.next), c);
    }
  }

  /** Only a first S leads on to the copy; anything else touches at most
      `notCopied`, the key position and whether the keyboard ran out. */
  lemma StepCases(env: Setting, s: CopyState, c: SourceChild)
    ensures FirstYes(env, s, c) ==>
              Step(env, s, c) == Accepted(env, s.(keyPos := Confirmation(env.keys, s.keyPos).value.next), c)
    ensures !FirstYes(env, s, c) ==>
              var t := Step(env, s, c);
              t.deleted == s.deleted && t.copied == s.copied && t.failed == s.failed && t.ledger == s.ledger
  {
    var a := Confirmation(env.keys, s.keyPos);
    if !s.blocked && c.isDir && a.Some? {
      YesIsS(env.keys[a.value.next - 1]);
    }
  }

  /** The part of the gate after the first yes. */
  lemma AcceptedDeleteGate(env: Setting, s: CopyState, c: SourceChild)
    ensures var go := Verified(env, c) && c.ledgerWrite.Done? &&
                      s.keyPos < |env.keys| && Upper(env.keys[s.keyPos]) == "S" && c.removal.Done?;
            (go ==> Accepted(env, s, c).deleted == s.deleted + [c.name]) &&
            (!go ==> Accepted(env, s, c).deleted == s.deleted)
  {
    if s.keyPos < |env.keys| {
      YesIsS(env.keys[s.keyPos]);
    }
    var hs, ht := SourceHash(env, c), TargetHash(env, c);
    if hs.Hashed? && c.copy.Done? && ht.Hashed? && hs.digest == ht.digest {
      assert Verified(env, c);
    } else {
      assert !Verified(env, c);
    }
  }

  /** A name joins `copiedSources` exactly when it was accepted, both walks
      succeeded and the copy did not raise, whether or not the digests
      agree. */
  lemma CopiedGate(env: Setting, s: CopyState, c: SourceChild)
    ensures var go := FirstYes(env, s, c) &&
                      SourceHash(env, c).Hashed? && c.copy.Done? && TargetHash(env, c).Hashed?;
            (go ==> Step(env, s, c).copied == s.copied + [c.name]) &&
            (!go ==> Step(env, s, c).copied == s.copied)
  {
    StepCases(env, s, c);
    var a := Confirmation(env.keys, s.keyPos);
    if FirstYes(env, s, c) {
      AcceptedCopiedGate(env, s.(keyPos := a.value.next), c);
    }
  }

  lemma AcceptedCopiedGate(env: Setting, s: CopyState, c: SourceChild)
    ensures var go := SourceHash(env, c).Hashed? && c.copy.Done? && TargetHash(env, c).Hashed?;
            (go ==> Accepted(env, s, c).copied == s.copied + [c.name]) &&
            (!go ==> Accepted(env, s, c).copied == s.copied)
  {
  }

  /** A directory whose answer is N or L is recorded in `notCopied` and is
      neither hashed, copied nor deleted. */
  lemma DeclinedNotCopied(env: Setting, s: CopyState, c: SourceChild)
    requires !s.blocked && c.isDir
    requires var a := Confirmation(env.keys, s.keyPos); a.Some? && NoLike(a.value.reply)
    ensures var t := Step(env, s, c);
            t.notCopied == s.notCopied + [c.name] &&
            t.copied == s.copied && t.deleted == s.deleted && t.failed == s.failed && t.ledger == s.ledger
  {
    NoLikeIsNotYes(Confirmation(env.keys, s.keyPos).value.reply);
  }

  /** A copy whose digest differs from the source's is reported twice: in
      `copiedSources` and, through the TypeError, in `copyFailed`; the ledger
      is untouched and no second key is read. */
  lemma MismatchFailsBoth(env: Setting, s: CopyState, c: SourceChild)
    requires !s.blocked && c.isDir
    requires var a := Confirmation(env.keys, s.keyPos); a.Some? && a.value.reply == "S"
    requires SourceHash(env, c).Hashed? && c.copy.Done? && TargetHash(env, c).Hashed?
    requires SourceHash(env, c).digest != TargetHash(env, c).digest
    ensures var t := Step(env, s, c);
            t.copied == s.copied + [c.name] &&
            t.failed == s.failed + [Failure(c.name, NotCallableError)] &&
            t.deleted == s.deleted && t.ledger == s.ledger &&
            t.keyPos == Confirmation(env.keys, s.keyPos).value.next
  {
    assert Capitalize("S") == "S";
  }

  /** A failing walk at the source is reported as the unpacking TypeError,
      and nothing is copied. */
  lemma SourceWalkFails(env: Setting, s: CopyState, c: SourceChild)
    requires !s.blocked && c.isDir
    requires var a := Confirmation(env.keys, s.keyPos); a.Some? && a.value.reply == "S"
    requires !SourceHash(env, c).Hashed?
    ensures var t := Step(env, s, c);
            t.failed == s.failed + [Failure(c.name, UnpackError)] &&
            t.copied == s.copied && t.deleted == s.deleted && t.ledger == s.ledger
  {
    assert Capitalize("S") == "S";
  }

  /** A `copytree` that raises is reported with its first argument, and
      nothing more happens to that directory. */
  lemma CopyErrorRecorded(env: Setting, s: CopyState, c: SourceChild)
    requires !s.blocked && c.isDir
    requires var a := Confirmation(env.keys, s.keyPos); a.Some? && a.value.reply == "S"
    requires SourceHash(env, c).Hashed? && c.copy.Raised?
    ensures var t := Step(env, s, c);
            t.failed == s.failed + [Failure(c.name, c.copy.detail)] &&
            t.copied == s.copied && t.deleted == s.deleted && t.ledger == s.ledger
  {
    assert Capitalize("S") == "S";
  }

  /** A failing walk at the target is reported as the unpacking TypeError,
      and the copy is not counted as copied. */
  lemma TargetWalkFails(env: Setting, s: CopyState, c: SourceChild)
    requires !s.blocked && c.isDir
    requires var a := Confirmation(env.keys, s.keyPos); a.Some? && a.value.reply == "S"
    requires SourceHash(env, c).Hashed? && c.copy.Done? && !TargetHash(env, c).Hashed?
    ensures var t := Step(env, s, c);
            t.failed == s.failed + [Failure(c.name, UnpackError)] &&
            t.copied == s.copied && t.deleted == s.deleted && t.ledger == s.ledger
  {
    assert Capitalize("S") == "S";
  }

  /** A ledger that cannot be opened after a verified copy is reported with
      the exception's first argument; the source counts as copied, the ledger
      is unchanged and no second key is read. */
  lemma LedgerOpenFails(env: Setting, s: CopyState, c: SourceChild)
    requires !s.blocked && c.isDir
    requires var a := Confirmation(env.keys, s.keyPos); a.Some? && a.value.reply == "S"
    requires Verified(env, c) && c.ledgerWrite.Raised?
    ensures var t := Step(env, s, c);
            t.failed == s.failed + [Failure(c.name, c.ledgerWrite.detail)] &&
            t.copied == s.copied + [c.name] && t.deleted == s.deleted && t.ledger == s.ledger &&
            t.keyPos == Confirmation(env.keys, s.keyPos).value.next
  {
    assert Capitalize("S") == "S";
  }

  /** An `rmtree` that raises after the second S is reported with its first
      argument, and the source is not counted as deleted; the ledger was
      already written. */
  lemma RemovalFails(env: Setting, s: CopyState, c: SourceChild)
    requires !s.blocked && c.isDir
    requires var a := Confirmation(env.keys, s.keyPos);
             a.Some? && a.value.reply == "S" && a.value.next < |env.keys| && Upper(env.keys[a.value.next]) == "S"
    requires Verified(env, c) && c.ledgerWrite.Done? && c.removal.Raised?
    ensures var t := Step(env, s, c);
            t.failed == s.failed + [Failure(c.name, c.removal.detail)] &&
            t.copied == s.copied + [c.name] && t.deleted == s.deleted &&
            t.ledger == s.ledger + LedgerText(TargetHash(env, c).files)
  {
    assert Capitalize("S") == "S";
  }

  /** `rmtree` is attempted only after a first S, a verified copy, a ledger
      that opened and a second key that is S: in every other case, what
      removing the source would do makes no difference to the step. */
  lemma RemovalOnlyWhenVerified(env: Setting, s: CopyState, c: SourceChild, r: FsOutcome)
    requires var a := Confirmation(env.keys, s.keyPos);
             !(FirstYes(env, s, c) && Verified(env, c) && c.ledgerWrite.Done? &&
               a.value.next < |env.keys| && Upper(env.keys[a.value.next]) == "S")
    ensures Step(env, s, c) == Step(env, s, c.(removal := r))
  {
    if FirstYes(env, s, c) {
      var next := Confirmation(env.keys, s.keyPos).value.next;
      StepIsAccepted(env, s, c);
      StepIsAccepted(env, s, c.(removal := r));
      AcceptedRemovalIrrelevant(env, s.(keyPos := next), c, r);
    } else {
      DeclinedRemovalIrrelevant(env, s, c, r);
    }
  }

  lemma StepIsAccepted(env: Setting, s: CopyState, c: SourceChild)
    requires FirstYes(env, s, c)
    ensures Step(env, s, c) == Accepted(env, s.(keyPos := Confirmation(env.keys, s.keyPos).value.next), c)
  {
    YesIsS(env.keys[Confirmation(env.keys, s.keyPos).value.next - 1]);
  }

  lemma DeclinedRemovalIrrelevant(env: Setting, s: CopyState, c: SourceChild, r: FsOutcome)
    requires !FirstYes(env, s, c)
    ensures Step(env, s, c) == Step(env, s, c.(removal := r))
  {
    var a := Confirmation(env.keys, s.keyPos);
    if !s.blocked && c.isDir && a.Some? {
      YesIsS(env.keys[a.value.next - 1]);
    }
  }

  lemma AcceptedRemovalIrrelevant(env: Setting, s: CopyState, c: SourceChild, r: FsOutcome)
    requires !(Verified(env, c) && c.ledgerWrite.Done? && s.keyPos < |env.keys| && Upper(env.keys[s.keyPos]) == "S")
    ensures Accepted(env, s, c) == Accepted(env, s, c.(removal := r))
  {
    var c2 := c.(removal := r);
    assert SourceHash(env, c2) == SourceHash(env, c) && TargetHash(env, c2) == TargetHash(env, c);
    if s.keyPos < |env.keys| {
      YesIsS(env.keys[s.keyPos]);
    }
  }

  /** A copy that reproduces the source byte for byte, with every file
      readable and the filesystem cooperating, is deleted when both answers
      are S, and its target entries are appended to the ledger. */
  lemma FaithfulCopyDeletes(env: Setting, s: CopyState, c: SourceChild)
    requires !s.blocked && c.isDir
    requires c.tree.Some? && c.copied == c.tree && AllReadable(Walk(SourceTop(env, c), c.tree.value))
    requires c.copy.Done? && c.ledgerWrite.Done? && c.removal.Done?
    requires var a := Confirmation(env.keys, s.keyPos);
             a.Some? && a.value.reply == "S" && a.value.next < |env.keys| && Upper(env.keys[a.value.next]) == "S"
    ensures var t := Step(env, s, c);
            t.deleted == s.deleted + [c.name] && t.copied == s.copied + [c.name] && t.failed == s.failed &&
            t.ledger == s.ledger + LedgerText(TargetHash(env, c).files)
  {
    FaithfulCopyHashesEqual(env.md5, c.tree.value, SourceTop(env, c), TargetTop(env, c));
    assert Verified(env, c);
    assert Capitalize("S") == "S";
    assert FirstYes(env, s, c);
    StepCases(env, s, c);
  }

  /** Every directory the loop reaches without running out of keys is
      recorded: in `notCopied` if declined, and otherwise in `copiedSources`
      or `copyFailed` (or both). */
  lemma StepRecords(env: Setting, s: CopyState, c: SourceChild)
    requires !s.blocked && c.isDir && !Step(env, s, c).blocked
    ensures var t := Step(env, s, c);
            (t.notCopied == s.notCopied + [c.name] && t.copied == s.copied && t.failed == s.failed) ||
            (t.notCopied == s.notCopied && (t.copied == s.copied + [c.name] || FailedWith(s, t, c.name)))
  {
    var a := Confirmation(env.keys, s.keyPos);
    if IsYes(a.value.reply) {
      AcceptedRecords(env, s.(keyPos := a.value.next), c);
    }
  }

  /** `copyFailed` gained exactly one entry, for `name`. */
  predicate FailedWith(s: CopyState, t: CopyState, name: string) {
    |t.failed| == |s.failed| + 1 && t.failed[..|s.failed|] == s.failed && t.failed[|s.failed|].name == name
  }

  lemma AcceptedRecords(env: Setting, s: CopyState, c: SourceChild)
    ensures var t := Accepted(env, s, c);
            t.notCopied == s.notCopied && (t.copied == s.copied + [c.name] || FailedWith(s, t, c.name))
  {
    var t := Accepted(env, s, c);
    if t.copied == s.copied {
      assert t.failed[..|s.failed|] == s.failed;
    }
  }

  /** The ledger gains the target's entries, in walk order, after a verified
      copy whose ledger could be opened, and nothing otherwise. */
  lemma LedgerStep(env: Setting, s: CopyState, c: SourceChild)
    ensures var t := Step(env, s, c);
            t.ledger == s.ledger ||
            (Verified(env, c) && c.ledgerWrite.Done? && t.ledger == s.ledger + LedgerText(TargetHash(env, c).files))
  {
    if !s.blocked && c.isDir {
      var a := Confirmation(env.keys, s.keyPos);
      if a.Some? && IsYes(a.value.reply) {
        AcceptedLedger(env, s.(keyPos := a.value.next), c);
      }
    }
  }

  lemma AcceptedLedger(env: Setting, s: CopyState, c: SourceChild)
    ensures var t := Accepted(env, s, c);
            t.ledger == s.ledger ||
            (Verified(env, c) && c.ledgerWrite.Done? && t.ledger == s.ledger + LedgerText(TargetHash(env, c).files))
  {
    var hs, ht := SourceHash(env, c), TargetHash(env, c);
    if hs.Hashed? && c.copy.Done? && ht.Hashed? && hs.digest == ht.digest && c.ledgerWrite.Done? {
      assert Verified(env, c);
    }
  }

  /** N and L are interchangeable in one step. */
  lemma StepIgnoresNL(env1: Setting, env2: Setting, s: CopyState, c: SourceChild)
    requires env1 == env2.(keys := env1.keys) && SameUpToNL(env1.keys, env2.keys)
    ensures Step(env1, s, c) == Step(env2, s, c)
  {
    ConfirmationIgnoresNL(env1.keys, env2.keys, s.keyPos);
    var a := Confirmation(env1.keys, s.keyPos);
    if a.Some? {
      var s1 := s.(keyPos := a.value.next);
      if a.value.next < |env1.keys| {
        SingleKeyIgnoresNL(env1.keys, env2.keys, a.value.next);
      }
      AcceptedIgnoresNL(env1, env2, s1, c);
    }
  }

  lemma AcceptedIgnoresNL(env1: Setting, env2: Setting, s: CopyState, c: SourceChild)
    requires env1 == env2.(keys := env1.keys) && SameUpToNL(env1.keys, env2.keys)
    requires s.keyPos < |env1.keys| ==> (IsYes(Upper(env1.keys[s.keyPos])) <==> IsYes(Upper(env2.keys[s.keyPos])))
    ensures Accepted(env1, s, c) == Accepted(env2, s, c)
  {
    assert SourceHash(env1, c) == SourceHash(env2, c);
    assert TargetHash(env1, c) == TargetHash(env2, c);
  }

  // ---------------------------------------------------------------------
  // The whole loop

  /** A directory child named `x` whose copy was verified and whose removal
      succeeded. */
  predicate VerifiedRemoval(env: Setting, children: seq<SourceChild>, x: string) {
    exists j :: 0 <= j < |children| && children[j].name == x && children[j].isDir &&
                Verified(env, children[j]) && children[j].removal.Done?
  }

  lemma VerifiedRemovalExtends(env: Setting, init: seq<SourceChild>, c: SourceChild, x: string)
    requires VerifiedRemoval(env, init, x)
    ensures VerifiedRemoval(env, init + [c], x)
  {
    var j :| 0 <= j < |init| && init[j].name == x && init[j].isDir &&
             Verified(env, init[j]) && init[j].removal.Done?;
    assert (init + [c])[j] == init[j];
  }

  /** The safety rule: every deleted source is a directory whose copy was
      verified by equal digests and whose removal succeeded, and it is also
      among the copied ones. */
  lemma {:induction false} DeletedOnlyIfVerified(env: Setting, ledger: string, pos: nat, children: seq<SourceChild>)
    ensures var s := Run(env, Start(ledger, pos), children);
            multiset(s.deleted) <= multiset(s.copied) &&
            forall x :: x in s.deleted ==> VerifiedRemoval(env, children, x)
  {
    if children != [] {
      var init := children[..|children| - 1];
      var c := children[|children| - 1];
      DeletedOnlyIfVerified(env, ledger, pos, init);
      var m := Run(env, Start(ledger, pos), init);
      DeleteStep(env, m, c);
      forall x | x in Step(env, m, c).deleted ensures VerifiedRemoval(env, children, x) {
        if x in m.deleted {
          VerifiedRemovalExtends(env, init, c, x);
          assert init + [c] == children;
        } else {
          assert x == c.name;
          assert children[|children| - 1] == c;
        }
      }
    }
  }

  /** One step keeps `deleted` within `copied` and deletes only a verified
      copy. */
  lemma DeleteStep(env: Setting, s: CopyState, c: SourceChild)
    requires multiset(s.deleted) <= multiset(s.copied)
    ensures var t := Step(env, s, c);
            multiset(t.deleted) <= multiset(t.copied) &&
            (t.deleted == s.deleted ||
             (t.deleted == s.deleted + [c.name] && c.isDir && Verified(env, c) && c.removal.Done?))
  {
    if !s.blocked && c.isDir {
      var a := Confirmation(env.keys, s.keyPos);
      if a.Some? && IsYes(a.value.reply) {
        AcceptedDelete(env, s.(keyPos := a.value.next), c);
      }
    }
  }

  lemma AcceptedDelete(env: Setting, s: CopyState, c: SourceChild)
    requires multiset(s.deleted) <= multiset(s.copied)
    ensures var t := Accepted(env, s, c);
            multiset(t.deleted) <= multiset(t.copied) &&
            (t.deleted == s.deleted ||
             (t.deleted == s.deleted + [c.name] && Verified(env, c) && c.removal.Done?))
  {
    AcceptedDeleteGate(env, s, c);
    AcceptedCopied(env, s, c);
    var t := Accepted(env, s, c);
    if t.copied != s.copied {
      assert multiset(t.copied) == multiset(s.copied) + multiset{c.name};
    }
  }

  lemma AcceptedCopied(env: Setting, s: CopyState, c: SourceChild)
    ensures Accepted(env, s, c).copied ==
              if SourceHash(env, c).Hashed? && c.copy.Done? && TargetHash(env, c).Hashed?
              then s.copied + [c.name] else s.copied
  {
  }


  /** The ledger only grows: whatever the file held before the loop is still
      its beginning afterwards. */
  lemma {:induction false} LedgerAppendOnly(env: Setting, s0: CopyState, children: seq<SourceChild>)
    ensures var s := Run(env, s0, children);
            |s0.ledger| <= |s.ledger| && s.ledger[..|s0.ledger|] == s0.ledger
  {
    if children != [] {
      var init := children[..|children| - 1];
      LedgerAppendOnly(env, s0, init);
      var m := Run(env, s0, init);
      LedgerStep(env, m, children[|children| - 1]);
      var t := Step(env, m, children[|children| - 1]);
      PrefixOfPrefix(s0.ledger, m.ledger, t.ledger);
    }
  }

  lemma PrefixOfPrefix(a: string, b: string, c: string)
    requires |a| <= |b| && b[..|a|] == a
    requires c == b || (|b| <= |c| && c[..|b|] == b)
    ensures |a| <= |c| && c[..|a|] == a
  {
    if c != b {
      assert c[..|a|] == c[..|b|][..|a|];
    }
  }

  /** N and L are interchangeable: two keyboards that differ only there give
      the same result. */
  lemma {:induction false} RunIgnoresNL(env1: Setting, env2: Setting, s: CopyState, children: seq<SourceChild>)
    requires env1 == env2.(keys := env1.keys) && SameUpToNL(env1.keys, env2.keys)
    ensures Run(env1, s, children) == Run(env2, s, children)
  {
    if children != [] {
      RunIgnoresNL(env1, env2, s, children[..|children| - 1]);
      StepIgnoresNL(env1, env2, Run(env1, s, children[..|children| - 1]), children[|children| - 1]);
    }
  }
}
