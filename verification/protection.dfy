/**
 * Password protection: the user access permissions written into the P entry
 * of the encryption dictionary (Table 22 in section 7.6.3.2 of ISO 32000-1),
 * the choice of user password, the ordered checks of password removal, and
 * the password tab's validation of what the user asked for and its tally of
 * processed files.
 */
module Protection {
  import opened Wrappers
  import opened Text
  import opened Seqs
  import opened Naming
  import opened Documents

  /** The P entry as a 32-bit word; bit n (counting from 1) has the value 2^(n-1). */
  type Perms = bv32

  /** `UserAccessPermissions(-1)`: every bit set. */
  const AllAllowed: Perms := 0xFFFF_FFFF

  const PRINT: Perms := 4                         // bit 3
  const MODIFY: Perms := 8                        // bit 4
  const EXTRACT: Perms := 16                      // bit 5
  const ADD_OR_MODIFY: Perms := 32                // bit 6
  const FILL_FORM_FIELDS: Perms := 256            // bit 9
  const EXTRACT_TEXT_AND_GRAPHICS: Perms := 512   // bit 10
  const ASSEMBLE_DOC: Perms := 1024               // bit 11
  const PRINT_TO_REPRESENTATION: Perms := 2048    // bit 12

  /** Whether every bit of `flag` is set in `perms`. */
  predicate Allows(perms: Perms, flag: Perms)
  {
    perms & flag == flag
  }

  datatype PasswordError = Unreadable | NotEncrypted | WrongPassword

  /** An encrypted output: the copied pages, both passwords and the P entry. */
  datatype Locked = Locked(pages: seq<Page>, userPassword: string, ownerPassword: string, perms: Perms)

  // ----- the tabbed application's set_pdf_password -----

  /** The bits that copying and printing stand for. */
  const CopyBits: Perms := EXTRACT | EXTRACT_TEXT_AND_GRAPHICS
  const PrintBits: Perms := PRINT | PRINT_TO_REPRESENTATION

  /**
   * The permissions of `set_pdf_password`: requiring an open password forbids
   * both copying and printing; forbidding copying clears exactly the two
   * extraction bits, forbidding printing exactly the two print bits, and no
   * other bit changes.
   */
  function PermsFor(forbidCopy: bool, forbidPrint: bool, requireOpen: bool): (r: Perms)
    ensures Allows(r, EXTRACT) <==> !(forbidCopy || requireOpen)
    ensures Allows(r, EXTRACT_TEXT_AND_GRAPHICS) <==> !(forbidCopy || requireOpen)
    ensures Allows(r, PRINT) <==> !(forbidPrint || requireOpen)
    ensures Allows(r, PRINT_TO_REPRESENTATION) <==> !(forbidPrint || requireOpen)
    ensures r | CopyBits | PrintBits == AllAllowed
  {
    var noCopy := forbidCopy || requireOpen;
    var noPrint := forbidPrint || requireOpen;
    AllAllowed & (if noCopy then !CopyBits else AllAllowed) & (if noPrint then !PrintBits else AllAllowed)
  }

  /** The user password: the owner's when opening needs a password, else empty. */
  function UserPasswordFor(owner: string, requireOpen: bool): (r: string)
    ensures requireOpen ==> r == owner
    ensures !requireOpen ==> r == ""
  {
    if requireOpen then owner else ""
  }

  /** The flag updates of `set_pdf_password`, one `&=` at a time. */
  method NarrowPermissions(forbidCopy: bool, forbidPrint: bool, requireOpen: bool) returns (perms: Perms)
    ensures perms == PermsFor(forbidCopy, forbidPrint, requireOpen)
  {
    perms := AllAllowed;
    var noCopy, noPrint := forbidCopy, forbidPrint;
    if requireOpen {
      noCopy := true;
      noPrint := true;
    }
    if noCopy {
      perms := perms & !EXTRACT;
      perms := perms & !EXTRACT_TEXT_AND_GRAPHICS;
    }
    if noPrint {
      perms := perms & !PRINT;
      perms := perms & !PRINT_TO_REPRESENTATION;
    }
  }

  /** The pages copied into the writer, one by one in order. */
  method CopyAll(pages: seq<Page>) returns (written: seq<Page>)
    ensures written == pages
  {
    written := [];
    for i := 0 to |pages|
      invariant written == pages[..i]
    {
      written := written + [pages[i]];
    }
  }

  /**
   * What `set_pdf_password` writes, or its failure when the source cannot be
   * read. The pages are copied without a `decrypt` call, so a source that
   * needs an open password fails like an unreadable one.
   */
  function LockSpec(src: Option<Document>, owner: string, forbidCopy: bool, forbidPrint: bool, requireOpen: bool): (r: Result<Locked, PasswordError>)
    ensures r.Success? <==> src.Some? && PagesReadable(src.value)
    ensures r.Failure? ==> r.error == Unreadable
    ensures r.Success? ==> r.value.pages == src.value.pages && r.value.ownerPassword == owner
  {
    if src.None? || !PagesReadable(src.value) then Failure(Unreadable)
    else Success(Locked(src.value.pages, UserPasswordFor(owner, requireOpen), owner, PermsFor(forbidCopy, forbidPrint, requireOpen)))
  }

  /** `set_pdf_password`: copy every page, narrow the permissions, encrypt. */
  method SetPdfPassword(src: Option<Document>, owner: string, forbidCopy: bool, forbidPrint: bool, requireOpen: bool)
    returns (r: Result<Locked, PasswordError>)
    ensures r == LockSpec(src, owner, forbidCopy, forbidPrint, requireOpen)
  {
    if src.None? {
      return Failure(Unreadable);
    }
    if src.value.encrypted && "" !in src.value.passwords {
      return Failure(Unreadable);
    }
    var pages := CopyAll(src.value.pages);
    var perms := NarrowPermissions(forbidCopy, forbidPrint, requireOpen);
    var user := if requireOpen then owner else "";
    r := Success(Locked(pages, user, owner, perms));
  }

  /** The encrypted file as a reader sees it: `decrypt` accepts either password. */
  function Reopen(l: Locked): Document
  {
    Document(l.pages, true, {l.userPassword, l.ownerPassword})
  }

  // ----- removing a password -----

  /**
   * `remove_pdf_password` (both versions): an unreadable source fails first,
   * then a source that is not encrypted, then a password `decrypt` rejects;
   * otherwise every page is copied in order.
   */
  method RemovePdfPassword(src: Option<Document>, password: string) returns (r: Result<seq<Page>, PasswordError>)
    ensures r == UnlockSpec(src, password)
  {
    if src.None? {
      return Failure(Unreadable);
    }
    var doc := src.value;
    if !doc.encrypted {
      return Failure(NotEncrypted);
    }
    if password !in doc.passwords {
      return Failure(WrongPassword);
    }
    var pages := CopyAll(doc.pages);
    r := Success(pages);
  }

  /**
   * The outcome of `remove_pdf_password`: it succeeds, with every page in
   * order, exactly when the source is readable, encrypted and `decrypt`
   * accepts the password; the checks fail in that order.
   */
  function UnlockSpec(src: Option<Document>, password: string): (r: Result<seq<Page>, PasswordError>)
    ensures r.Success? <==> src.Some? && src.value.encrypted && password in src.value.passwords
    ensures r.Success? ==> r.value == src.value.pages
    ensures src.Some? && !src.value.encrypted ==> r == Failure(NotEncrypted)
    ensures src.Some? && src.value.encrypted && password !in src.value.passwords ==> r == Failure(WrongPassword)
  {
    if src.None? then Failure(Unreadable)
    else if !src.value.encrypted then Failure(NotEncrypted)
    else if password !in src.value.passwords then Failure(WrongPassword)
    else Success(src.value.pages)
  }

  /**
   * Locking and then unlocking with the owner password gives back the
   * original pages; any password other than the two set is rejected; and
   * when opening needs a password the empty one does not unlock.
   */
  lemma LockThenUnlock(doc: Document, owner: string, forbidCopy: bool, forbidPrint: bool, requireOpen: bool, other: string)
    requires PagesReadable(doc) && other != owner
    ensures var l := LockSpec(Some(doc), owner, forbidCopy, forbidPrint, requireOpen).value;
      UnlockSpec(Some(Reopen(l)), owner) == Success(doc.pages)
    ensures var l := LockSpec(Some(doc), owner, forbidCopy, forbidPrint, requireOpen).value;
      other != l.userPassword ==> UnlockSpec(Some(Reopen(l)), other) == Failure(WrongPassword)
    ensures var l := LockSpec(Some(doc), owner, forbidCopy, forbidPrint, requireOpen).value;
      requireOpen && owner != "" ==> UnlockSpec(Some(Reopen(l)), "") == Failure(WrongPassword)
  {
  }

  /**
   * A file locked with an open password cannot be locked again: its pages
   * are read without the password, so `set_pdf_password` fails; a file
   * locked without one can be.
   */
  lemma LockedTwice(doc: Document, owner: string, forbidCopy: bool, forbidPrint: bool, requireOpen: bool, owner2: string)
    requires PagesReadable(doc)
    ensures var l := LockSpec(Some(doc), owner, forbidCopy, forbidPrint, requireOpen).value;
      LockSpec(Some(Reopen(l)), owner2, forbidCopy, forbidPrint, requireOpen).Failure? <==> requireOpen && owner != ""
  {
  }

  /** A document without encryption is refused whatever the password, so the password is never tried. */
  lemma NotEncryptedFirst(doc: Document, p: string, q: string)
    requires !doc.encrypted
    ensures UnlockSpec(Some(doc), p) == UnlockSpec(Some(doc), q) == Failure(NotEncrypted)
  {
  }

  // ----- the older application's set_pdf_password -----

  /** The flags the older application always clears, in its order. */
  const Deny0107: seq<Perms> := [MODIFY, ASSEMBLE_DOC, ADD_OR_MODIFY, FILL_FORM_FIELDS, EXTRACT_TEXT_AND_GRAPHICS]

  /** All bits of `flags` together. */
  function Union(flags: seq<Perms>): Perms
  {
    if flags == [] then 0 else Union(flags[..|flags| - 1]) | flags[|flags| - 1]
  }

  /** The deny list's bits together. */
  lemma Deny0107Bits()
    ensures Union(Deny0107) == MODIFY | ASSEMBLE_DOC | ADD_OR_MODIFY | FILL_FORM_FIELDS | EXTRACT_TEXT_AND_GRAPHICS
  {
    var d := Deny0107;
    assert d[..4] == [MODIFY, ASSEMBLE_DOC, ADD_OR_MODIFY, FILL_FORM_FIELDS];
    assert d[..4][..3] == [MODIFY, ASSEMBLE_DOC, ADD_OR_MODIFY];
    assert d[..4][..3][..2] == [MODIFY, ASSEMBLE_DOC];
    assert d[..4][..3][..2][..1] == [MODIFY];
    assert [MODIFY][..0] == [];
    assert Union([MODIFY]) == MODIFY;
    assert Union(d[..4][..3][..2]) == MODIFY | ASSEMBLE_DOC;
    assert Union(d[..4][..3]) == MODIFY | ASSEMBLE_DOC | ADD_OR_MODIFY;
    assert Union(d[..4]) == MODIFY | ASSEMBLE_DOC | ADD_OR_MODIFY | FILL_FORM_FIELDS;
  }

  /** The older application's permissions: the deny list cleared, and printing only when not allowed. */
  function Perms0107(allowPrint: bool): (r: Perms)
  {
    AllAllowed & !Union(Deny0107) & (if allowPrint then AllAllowed else !PRINT)
  }

  /**
   * The older application forbids editing, page assembly, annotations, form
   * filling and extraction for accessibility; it keeps printing exactly when
   * allowed, keeps plain copying (bit 5) and high-quality printing (bit 12),
   * and leaves every other bit set.
   */
  lemma Perms0107Meaning(allowPrint: bool)
    ensures var r := Perms0107(allowPrint);
      !Allows(r, MODIFY) && !Allows(r, ASSEMBLE_DOC) && !Allows(r, ADD_OR_MODIFY) &&
      !Allows(r, FILL_FORM_FIELDS) && !Allows(r, EXTRACT_TEXT_AND_GRAPHICS)
    ensures Allows(Perms0107(allowPrint), PRINT) <==> allowPrint
    ensures Allows(Perms0107(allowPrint), EXTRACT) && Allows(Perms0107(allowPrint), PRINT_TO_REPRESENTATION)
    ensures Perms0107(allowPrint) | Union(Deny0107) | PRINT == AllAllowed
  {
    Deny0107Bits();
  }

  /** The loop state after clearing the first `i` flags. */
  predicate ClearedUpTo(perms: Perms, start: Perms, flags: seq<Perms>, i: nat)
    requires i <= |flags|
  {
    perms == start & !Union(flags[..i])
  }

  /** Before the loop nothing is cleared. */
  lemma ClearStart(start: Perms, flags: seq<Perms>)
    ensures ClearedUpTo(start, start, flags, 0)
  {
    assert flags[..0] == [];
  }

  /** Clearing one more flag of the list clears the union of one more prefix. */
  lemma ClearStep(perms: Perms, start: Perms, flags: seq<Perms>, i: nat)
    requires i < |flags| && ClearedUpTo(perms, start, flags, i)
    ensures ClearedUpTo(perms & !flags[i], start, flags, i + 1)
  {
    assert flags[..i + 1][..i] == flags[..i];
    var u := Union(flags[..i]);
    assert (start & !u) & !flags[i] == start & !(u | flags[i]);
  }

  /** After the loop every flag is cleared. */
  lemma ClearDone(perms: Perms, start: Perms, flags: seq<Perms>)
    requires ClearedUpTo(perms, start, flags, |flags|)
    ensures perms == start & !Union(flags)
  {
    assert flags[..|flags|] == flags;
  }

  /** `for flag in flags: perms &= ~flag`. */
  method ClearEach(start: Perms, flags: seq<Perms>) returns (perms: Perms)
    ensures perms == start & !Union(flags)
  {
    perms := start;
    ClearStart(start, flags);
    for i := 0 to |flags|
      invariant ClearedUpTo(perms, start, flags, i)
    {
      ClearStep(perms, start, flags, i);
      perms := perms & !flags[i];
    }
    ClearDone(perms, start, flags);
  }

  /** The loop over the deny list of the older `set_pdf_password`, then the optional print flag. */
  method NarrowPermissions0107(allowPrint: bool) returns (perms: Perms, userPassword: string)
    ensures perms == Perms0107(allowPrint)
    ensures userPassword == ""
  {
    perms := ClearEach(AllAllowed, Deny0107);
    if !allowPrint {
      perms := perms & !PRINT;
    }
    userPassword := "";
  }

  // ----- the password tab -----

  /** What the set operation was asked to do. */
  datatype SetIntent = SetIntent(password: string, requireOpen: bool, forbidCopy: bool, forbidPrint: bool)

  datatype Warning = NoFiles | MissingPassword | NoRestriction

  /**
   * The checks of `_execute_set`: view mode needs a non-blank password and
   * asks for an open password; restrict mode needs a non-blank password and
   * at least one of the two restrictions.
   */
  function SetIntentOf(mode: string, viewEntry: string, restrictEntry: string, copyBox: bool, printBox: bool): (r: Result<SetIntent, Warning>)
    ensures r.Success? ==> r.value.password != [] && r.value.password == Strip(r.value.password)
    ensures r.Success? ==> (r.value.requireOpen <==> mode == "view")
    ensures r.Success? ==> r.value.password == Strip(if mode == "view" then viewEntry else restrictEntry)
    ensures r.Success? && mode == "view" ==> !r.value.forbidCopy && !r.value.forbidPrint
    ensures r.Success? && mode != "view" ==> r.value.forbidCopy == copyBox && r.value.forbidPrint == printBox
    ensures r.Success? && mode != "view" ==> (r.value.forbidCopy || r.value.forbidPrint)
    ensures mode == "view" ==> (r.Failure? <==> Strip(viewEntry) == [])
    ensures mode != "view" && Strip(restrictEntry) == [] ==> r == Failure(MissingPassword)
    ensures mode != "view" && Strip(restrictEntry) != [] ==> (r == Failure(NoRestriction) <==> !copyBox && !printBox)
  {
    if mode == "view" then
      var pw := Strip(viewEntry);
      if pw == [] then Failure(MissingPassword) else
      StripIdempotent(viewEntry);
      Success(SetIntent(pw, true, false, false))
    else
      var pw := Strip(restrictEntry);
      if pw == [] then Failure(MissingPassword)
      else if !(copyBox || printBox) then Failure(NoRestriction) else
      StripIdempotent(restrictEntry);
      Success(SetIntent(pw, false, copyBox, printBox))
  }

  /**
   * Whatever passes the checks protects something: view mode makes the
   * password necessary to open the file and forbids copying and printing,
   * restrict mode forbids copying or printing.
   */
  lemma IntentProtects(mode: string, viewEntry: string, restrictEntry: string, copyBox: bool, printBox: bool)
    requires SetIntentOf(mode, viewEntry, restrictEntry, copyBox, printBox).Success?
    ensures var i := SetIntentOf(mode, viewEntry, restrictEntry, copyBox, printBox).value;
      var p := PermsFor(i.forbidCopy, i.forbidPrint, i.requireOpen);
      !Allows(p, EXTRACT) || !Allows(p, PRINT)
    ensures var i := SetIntentOf(mode, viewEntry, restrictEntry, copyBox, printBox).value;
      mode == "view" ==> UserPasswordFor(i.password, i.requireOpen) == i.password != ""
  {
  }

  /**
   * The password typed on the set side opens what the set side wrote and
   * gives the pages back; in view mode a blank password does not open it.
   */
  lemma TypedPasswordUnlocks(mode: string, viewEntry: string, restrictEntry: string, copyBox: bool, printBox: bool, doc: Document)
    requires SetIntentOf(mode, viewEntry, restrictEntry, copyBox, printBox).Success? && PagesReadable(doc)
    ensures var i := SetIntentOf(mode, viewEntry, restrictEntry, copyBox, printBox).value;
      var locked := Reopen(LockSpec(Some(doc), i.password, i.forbidCopy, i.forbidPrint, i.requireOpen).value);
      UnlockSpec(Some(locked), Strip(if mode == "view" then viewEntry else restrictEntry)) == Success(doc.pages)
    ensures var i := SetIntentOf(mode, viewEntry, restrictEntry, copyBox, printBox).value;
      var locked := Reopen(LockSpec(Some(doc), i.password, i.forbidCopy, i.forbidPrint, i.requireOpen).value);
      mode == "view" ==> UnlockSpec(Some(locked), "") == Failure(WrongPassword)
  {
    var i := SetIntentOf(mode, viewEntry, restrictEntry, copyBox, printBox).value;
    LockThenUnlock(doc, i.password, i.forbidCopy, i.forbidPrint, i.requireOpen, "");
  }

  /** What happened to one file in a worker loop. */
  datatype FileOutcome = Skipped | Failed | Written(out: FilePath)

  /** The output pattern: the stripped field, or the operation's default when blank. */
  function PatternOr(raw: string, default: string): (r: string)
    ensures Strip(raw) == [] ==> r == default
    ensures Strip(raw) != [] ==> r == Strip(raw)
  {
    if Strip(raw) == [] then default else Strip(raw)
  }

  /** One iteration of the set worker: the output path, the overwrite question, then `set_pdf_password`. */
  function SetStep(pattern: string, outDir: Option<string>, confirm: FilePath -> bool, read: FilePath -> Option<Document>, i: SetIntent): FilePath -> FileOutcome
  {
    f =>
      var out := BuildOutPath(f, pattern, outDir);
      if !confirm(out) then Skipped
      else if LockSpec(read(f), i.password, i.forbidCopy, i.forbidPrint, i.requireOpen).Failure? then Failed
      else Written(out)
  }

  /** One iteration of the remove worker: the output path, the overwrite question, then `remove_pdf_password`. */
  function RemoveStep(pattern: string, outDir: Option<string>, confirm: FilePath -> bool, read: FilePath -> Option<Document>, password: string): FilePath -> FileOutcome
  {
    f =>
      var out := BuildOutPath(f, pattern, outDir);
      if !confirm(out) then Skipped
      else if UnlockSpec(read(f), password).Failure? then Failed
      else Written(out)
  }

  /** Whether a file's step wrote an output. */
  function Done(step: FilePath -> FileOutcome): (r: FilePath -> bool)
  {
    f => step(f).Written?
  }

  /** Whether a file's step was skipped or failed. */
  function Lost(step: FilePath -> FileOutcome): (r: FilePath -> bool)
    ensures forall f :: r(f) == !Done(step)(f)
  {
    f => !step(f).Written?
  }

  /** After the first `i` files: the written ones counted, the others listed. */
  ghost predicate TallyUpTo(files: seq<FilePath>, step: FilePath -> FileOutcome, i: nat, success: nat, failed: seq<FilePath>)
  {
    i <= |files| && success == |Keep(files[..i], Done(step))| && failed == Keep(files[..i], Lost(step))
  }

  /** One more file: counted when written, listed otherwise. */
  lemma TallyNext(files: seq<FilePath>, step: FilePath -> FileOutcome, i: nat, success: nat, failed: seq<FilePath>)
    requires i < |files| && TallyUpTo(files, step, i, success, failed)
    ensures step(files[i]).Written? ==> TallyUpTo(files, step, i + 1, success + 1, failed)
    ensures !step(files[i]).Written? ==> TallyUpTo(files, step, i + 1, success, failed + [files[i]])
  {
    assert files[..i + 1][..i] == files[..i];
    assert files[..i + 1][i] == files[i];
  }

  /** The written and the other files together are all the files, and none written means none counted. */
  lemma TallyTotals(files: seq<FilePath>, step: FilePath -> FileOutcome)
    ensures |Keep(files, Done(step))| + |Keep(files, Lost(step))| == |files|
    ensures |Keep(files, Done(step))| == 0 <==> forall f :: f in files ==> !step(f).Written?
  {
    KeepPartition(files, Done(step), Lost(step));
    assert |multiset(Keep(files, Done(step)))| + |multiset(Keep(files, Lost(step)))| == |multiset(files)|;
    KeepMembers(files, Done(step));
    if Keep(files, Done(step)) != [] {
      assert Keep(files, Done(step))[0] in Keep(files, Done(step));
    }
  }

  /**
   * The worker loop: every file either counts towards `success` or is
   * appended to `failed` (a declined overwrite included).
   */
  method Tally(files: seq<FilePath>, step: FilePath -> FileOutcome) returns (success: nat, failed: seq<FilePath>)
    ensures success == |Keep(files, Done(step))|
    ensures failed == Keep(files, Lost(step))
    ensures success + |failed| == |files|
    ensures success == 0 <==> forall f :: f in files ==> !step(f).Written?
  {
    success, failed := 0, [];
    for i := 0 to |files|
      invariant TallyUpTo(files, step, i, success, failed)
    {
      TallyNext(files, step, i, success, failed);
      if !step(files[i]).Written? {
        failed := failed + [files[i]];
        continue;
      }
      success := success + 1;
    }
    assert files[..|files|] == files;
    TallyTotals(files, step);
  }

  /** How a press of the execute button ends. */
  datatype PasswordRun = Warned(w: Warning) | Finished(success: nat, failed: seq<FilePath>)

  /**
   * `_execute_set` after `execute_password`'s empty-list check: the intent
   * is validated, the pattern defaults to "{name}_ロック済み.pdf", and each
   * file is tallied.
   */
  method ExecuteSet(files: seq<FilePath>, mode: string, viewEntry: string, restrictEntry: string, copyBox: bool, printBox: bool,
                    rawPattern: string, rawDir: string, confirm: FilePath -> bool, read: FilePath -> Option<Document>)
    returns (run: PasswordRun)
    ensures files == [] ==> run == Warned(NoFiles)
    ensures files != [] && SetIntentOf(mode, viewEntry, restrictEntry, copyBox, printBox).Failure? ==>
      run == Warned(SetIntentOf(mode, viewEntry, restrictEntry, copyBox, printBox).error)
    ensures files != [] && SetIntentOf(mode, viewEntry, restrictEntry, copyBox, printBox).Success? ==> run.Finished?
    ensures run.Finished? ==> SetIntentOf(mode, viewEntry, restrictEntry, copyBox, printBox).Success?
    ensures run.Finished? ==>
      var step := SetStep(PatternOr(rawPattern, LockPattern), FolderOf(rawDir), confirm, read,
                          SetIntentOf(mode, viewEntry, restrictEntry, copyBox, printBox).value);
      run.success == |Keep(files, Done(step))| && run.failed == Keep(files, Lost(step)) &&
      run.success + |run.failed| == |files|
  {
    if files == [] {
      return Warned(NoFiles);
    }
    var intent := SetIntentOf(mode, viewEntry, restrictEntry, copyBox, printBox);
    if intent.Failure? {
      return Warned(intent.error);
    }
    var step := SetStep(PatternOr(rawPattern, LockPattern), FolderOf(rawDir), confirm, read, intent.value);
    var success, failed := Tally(files, step);
    run := Finished(success, failed);
  }

  /** `_execute_remove`: a non-blank password is required, the pattern defaults to "{name}_解除済み.pdf". */
  method ExecuteRemove(files: seq<FilePath>, entry: string, rawPattern: string, rawDir: string,
                       confirm: FilePath -> bool, read: FilePath -> Option<Document>)
    returns (run: PasswordRun)
    ensures files == [] ==> run == Warned(NoFiles)
    ensures files != [] && Strip(entry) == [] ==> run == Warned(MissingPassword)
    ensures files != [] && Strip(entry) != [] ==> run.Finished?
    ensures run.Finished? ==>
      var step := RemoveStep(PatternOr(rawPattern, UnlockPattern), FolderOf(rawDir), confirm, read, Strip(entry));
      run.success == |Keep(files, Done(step))| && run.failed == Keep(files, Lost(step)) &&
      run.success + |run.failed| == |files|
  {
    if files == [] {
      return Warned(NoFiles);
    }
    var password := Strip(entry);
    if password == [] {
      return Warned(MissingPassword);
    }
    var step := RemoveStep(PatternOr(rawPattern, UnlockPattern), FolderOf(rawDir), confirm, read, password);
    var success, failed := Tally(files, step);
    run := Finished(success, failed);
  }

  /**
   * The two tabs in turn: a file the set tab wrote, read back by the remove
   * tab with the same password entry, is written again there unless its
   * overwrite is declined.
   */
  lemma SetThenRemoveWrites(mode: string, viewEntry: string, restrictEntry: string, copyBox: bool, printBox: bool, doc: Document,
                            f: FilePath, rawPattern: string, rawDir: string, confirm: FilePath -> bool, read: FilePath -> Option<Document>)
    requires SetIntentOf(mode, viewEntry, restrictEntry, copyBox, printBox).Success? && PagesReadable(doc)
    requires var i := SetIntentOf(mode, viewEntry, restrictEntry, copyBox, printBox).value;
      read(f) == Some(Reopen(LockSpec(Some(doc), i.password, i.forbidCopy, i.forbidPrint, i.requireOpen).value))
    ensures var step := RemoveStep(PatternOr(rawPattern, UnlockPattern), FolderOf(rawDir), confirm, read,
                                   Strip(if mode == "view" then viewEntry else restrictEntry));
      step(f).Written? <==> confirm(BuildOutPath(f, PatternOr(rawPattern, UnlockPattern), FolderOf(rawDir)))
  {
    TypedPasswordUnlocks(mode, viewEntry, restrictEntry, copyBox, printBox, doc);
  }

  /**
   * A file the set tab locked in view mode, given to the set tab again, is
   * never written: it is skipped at the overwrite question or listed as
   * failed, whatever the second intent is.
   */
  lemma ViewLockedNotSetAgain(mode: string, viewEntry: string, restrictEntry: string, copyBox: bool, printBox: bool, doc: Document,
                              f: FilePath, rawPattern: string, rawDir: string, confirm: FilePath -> bool, read: FilePath -> Option<Document>,
                              again: SetIntent)
    requires mode == "view" && SetIntentOf(mode, viewEntry, restrictEntry, copyBox, printBox).Success? && PagesReadable(doc)
    requires var i := SetIntentOf(mode, viewEntry, restrictEntry, copyBox, printBox).value;
      read(f) == Some(Reopen(LockSpec(Some(doc), i.password, i.forbidCopy, i.forbidPrint, i.requireOpen).value))
    ensures var step := SetStep(PatternOr(rawPattern, LockPattern), FolderOf(rawDir), confirm, read, again);
      step(f) == (if confirm(BuildOutPath(f, PatternOr(rawPattern, LockPattern), FolderOf(rawDir))) then Failed else Skipped)
  {
    var i := SetIntentOf(mode, viewEntry, restrictEntry, copyBox, printBox).value;
    LockedTwice(doc, i.password, i.forbidCopy, i.forbidPrint, i.requireOpen, again.password);
  }
}
