/** The single-keypress confirmation used by removeOldTargets and
    copyNewTargets (backupDirs.py:83-87, 114-118, 130-131).

    The keyboard is a finite sequence of keys, each the string
    `readchar.readkey()` would return, read from a position onwards. When the
    sequence runs out while a key is awaited, the real program would wait
    forever; the model reports that as "no answer". */
module Prompt {
  import opened PyLib

  /** The upper-cased answers that end the re-prompt loop: S(í), N(o) and L
      (meant as "for all", never acted on). */
  predicate Recognized(reply: string) {
    reply == "S" || reply == "N" || reply == "L"
  }

  /** `str.capitalize()`, on ASCII letters. */
  function Capitalize(s: string): string {
    if s == [] then [] else [UpperChar(s[0])] + Lower(s[1..])
  }

  /** The test `reply.capitalize() == 'S'` that decides whether to act. */
  predicate IsYes(reply: string) {
    Capitalize(reply) == "S"
  }

  /** On an upper-cased key the gate accepts exactly "S": a key "s" or "S"
      and nothing else, however many characters `readkey` returned. */
  lemma YesIsS(key: string)
    ensures IsYes(Upper(key)) <==> Upper(key) == "S"
  {
    var u := Upper(key);
    if |u| == 1 {
      assert Capitalize(u) == [UpperChar(u[0])];
    }
  }

  /** What the re-prompt loop ends with: the upper-cased reply and the
      position of the next unread key. */
  datatype Answer = Answer(reply: string, next: nat)

  /** The loop `while userResponse not in ('S', 'N', 'L'): userResponse =
      readkey().upper()`, run on `keys` from position `pos`. */
  function Confirmation(keys: seq<string>, pos: nat): (a: Option<Answer>)
    ensures a.Some? ==>
              pos < a.value.next <= |keys| &&
              Recognized(a.value.reply) &&
              a.value.reply == Upper(keys[a.value.next - 1]) &&
              forall j :: pos <= j < a.value.next - 1 ==> !Recognized(Upper(keys[j]))
    ensures a.None? ==> forall j :: pos <= j < |keys| ==> !Recognized(Upper(keys[j]))
    decreases |keys| - pos
  {
    if pos >= |keys| then None
    else if Recognized(Upper(keys[pos])) then Some(Answer(Upper(keys[pos]), pos + 1))
    else Confirmation(keys, pos + 1)
  }

  /** The prompt loop itself (backupDirs.py:83-86 and 114-117). */
  method ReadConfirmation(keys: seq<string>, pos: nat) returns (a: Option<Answer>)
    ensures a == Confirmation(keys, pos)
  {
    var userResponse := "";
    var i := pos;
    while !Recognized(userResponse)
      invariant pos <= i
      invariant Recognized(userResponse) ==> pos < i <= |keys| && Confirmation(keys, pos) == Some(Answer(userResponse, i))
      invariant !Recognized(userResponse) ==> Confirmation(keys, pos) == Confirmation(keys, i)
      decreases |keys| - i
    {
      if i >= |keys| {
        // readkey() would block here for ever
        return None;
      }
      userResponse := Upper(keys[i]);
      i := i + 1;
    }
    return Some(Answer(userResponse, i));
  }

  /** Replies that lead to no action. */
  predicate NoLike(reply: string) {
    reply == "N" || reply == "L"
  }

  /** Two keyboards that differ only where one has N and the other L. */
  predicate SameUpToNL(keys1: seq<string>, keys2: seq<string>) {
    |keys1| == |keys2| &&
    forall i :: 0 <= i < |keys1| ==>
      Upper(keys1[i]) == Upper(keys2[i]) || (NoLike(Upper(keys1[i])) && NoLike(Upper(keys2[i])))
  }

  lemma NoLikeIsNotYes(reply: string)
    requires NoLike(reply)
    ensures !IsYes(reply)
  {
    assert Capitalize(reply) == [UpperChar(reply[0])];
  }

  /** N and L are interchangeable in the confirmation loop: both end it, at the
      same key, and neither is a yes. */
  lemma {:induction false} ConfirmationIgnoresNL(keys1: seq<string>, keys2: seq<string>, pos: nat)
    requires SameUpToNL(keys1, keys2)
    ensures Confirmation(keys1, pos).Some? <==> Confirmation(keys2, pos).Some?
    ensures Confirmation(keys1, pos).Some? ==>
              Confirmation(keys1, pos).value.next == Confirmation(keys2, pos).value.next &&
              (IsYes(Confirmation(keys1, pos).value.reply) <==> IsYes(Confirmation(keys2, pos).value.reply))
    decreases |keys1| - pos
  {
    if pos < |keys1| {
      var u1, u2 := Upper(keys1[pos]), Upper(keys2[pos]);
      if u1 != u2 {
        NoLikeIsNotYes(u1);
        NoLikeIsNotYes(u2);
      } else if !Recognized(u1) {
        ConfirmationIgnoresNL(keys1, keys2, pos + 1);
      }
    }
  }

  /** The single key read after a verified copy (backupDirs.py:130-131) is a
      yes on both keyboards or on neither. */
  lemma SingleKeyIgnoresNL(keys1: seq<string>, keys2: seq<string>, pos: nat)
    requires SameUpToNL(keys1, keys2) && pos < |keys1|
    ensures IsYes(Upper(keys1[pos])) <==> IsYes(Upper(keys2[pos]))
  {
    var u1, u2 := Upper(keys1[pos]), Upper(keys2[pos]);
    if u1 != u2 {
      NoLikeIsNotYes(u1);
      NoLikeIsNotYes(u2);
    }
  }
}
