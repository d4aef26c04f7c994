/**
 * The browser script `Public/scripts.js` that runs inside every checklist
 * page: filling in the associate name from the logged-in user, the form and
 * e-mail validators, the landing-page menu labels, the barcode scanner that
 * ticks checkboxes, and the choice of checklist filename reported when a
 * checklist is completed.
 *
 * The document is modelled by the few parts of it the script touches: the
 * `name` input, the elements `getElementById` can find, the scanner input
 * and the last message shown to the user.
 */
module Client {
  import opened Wrappers
  import opened Strings

  // ---------------------------------------------------------------------
  // The document

  /** An element `getElementById` can return, with the two properties the scanner reads. */
  datatype Element = Element(id: string, isCheckbox: bool, checked: bool)

  /** `currentUser` as fetched from the login server; a missing name is `None`. */
  datatype CurrentUser = CurrentUser(firstName: Option<string>, lastName: Option<string>)

  /** A JavaScript string is truthy when it is present and not empty. */
  predicate Truthy(s: Option<string>) {
    s.Some? && s.value != ""
  }

  /**
   * Index of the element `getElementById(id)` returns: the first one in
   * document order carrying that id, or `|els|` when there is none.
   */
  function ElementById(els: seq<Element>, id: string): (k: nat)
    ensures k <= |els|
    ensures k < |els| ==> els[k].id == id
    ensures forall i :: 0 <= i < k ==> els[i].id != id
  {
    if els == [] then 0 else if els[0].id == id then 0 else 1 + ElementById(els[1..], id)
  }

  // ---------------------------------------------------------------------
  // populateAssociateName

  /**
   * The value of the `name` input after `populateAssociateName`: it is
   * filled with `first + " " + last` only when the user, both names and the
   * field exist and the field is blank; otherwise nothing changes.
   */
  function FilledName(user: Option<CurrentUser>, field: Option<string>): (r: Option<string>)
    ensures r.None? <==> field.None?
    ensures (user.None? || !Truthy(user.value.firstName) || !Truthy(user.value.lastName)
             || field.None? || !IsBlank(field.value)) ==> r == field
    ensures (user.Some? && Truthy(user.value.firstName) && Truthy(user.value.lastName)
             && field.Some? && IsBlank(field.value))
            ==> r == Some(user.value.firstName.value + " " + user.value.lastName.value)
  {
    if user.None? || !Truthy(user.value.firstName) || !Truthy(user.value.lastName) then field
    else if field.None? then field
    else if field.value != [] && Trim(field.value) != "" then field
    else Some(user.value.firstName.value + " " + user.value.lastName.value)
  }

  /** Running `populateAssociateName` a second time changes nothing more. */
  lemma FilledNameIdempotent(user: Option<CurrentUser>, field: Option<string>)
    ensures FilledName(user, FilledName(user, field)) == FilledName(user, field)
  {
  }

  /** A field that already holds a non-blank value is never overwritten. */
  lemma FilledNameKeepsTypedValue(user: Option<CurrentUser>, typed: string)
    requires !IsBlank(typed)
    ensures FilledName(user, Some(typed)) == Some(typed)
  {
  }

  /**
   * A first name that is not all spaces makes the filled-in name pass
   * `validateForm`.
   */
  lemma {:induction false} FilledNamePassesValidation(u: CurrentUser, field: string)
    requires Truthy(u.firstName) && Truthy(u.lastName) && IsBlank(field)
    requires !IsBlank(u.firstName.value)
    ensures ValidateForm(FilledName(Some(u), Some(field)))
  {
    var first := u.firstName.value;
    var full := first + " " + u.lastName.value;
    BlankIffAllSpace(first);
    var i :| 0 <= i < |first| && !IsSpace(first[i]);
    assert full[i] == first[i];
    BlankIffAllSpace(full);
  }

  // ---------------------------------------------------------------------
  // validateForm

  /** `validateForm()`: false exactly when a `name` input exists and is blank. */
  function ValidateForm(nameInput: Option<string>): (ok: bool)
    ensures !ok <==> nameInput.Some? && forall i :: 0 <= i < |nameInput.value| ==> IsSpace(nameInput.value[i])
  {
    if nameInput.Some? then BlankIffAllSpace(nameInput.value); !IsBlank(nameInput.value) else true
  }

  // ---------------------------------------------------------------------
  // validateEmail

  /** A match of `[^\s@]+`: a non-empty run without whitespace or `@`. */
  predicate Run(s: string) {
    s != [] && forall i :: 0 <= i < |s| ==> !IsSpace(s[i]) && s[i] != '@'
  }

  /**
   * The whole string matches `^[^\s@]+@[^\s@]+\.[^\s@]+$`: it is `a@b.c`
   * with the `@` at `i`, the `.` at `k` and three runs around them.
   */
  ghost predicate EmailPattern(s: string) {
    exists i, k :: EmailSplit(s, i, k)
  }

  predicate EmailSplit(s: string, i: int, k: int) {
    0 < i && i + 1 < k && k + 1 < |s| && s[i] == '@' && s[k] == '.'
    && Run(s[..i]) && Run(s[i + 1..k]) && Run(s[k + 1..])
  }

  /** No whitespace anywhere in `s`. */
  predicate NoSpace(s: string) {
    forall i :: 0 <= i < |s| ==> !IsSpace(s[i])
  }

  /**
   * The pattern checked directly: no whitespace, exactly one `@`, not first,
   * and a `.` after it with a character on either side.
   */
  predicate EmailCheck(s: string) {
    var i := IndexOf(s, '@');
    NoSpace(s) && 0 < i < |s| && (forall j :: i < j < |s| ==> s[j] != '@')
    && exists k :: i + 1 < k < |s| - 1 && s[k] == '.'
  }

  lemma EmailCheckSound(s: string)
    requires EmailCheck(s)
    ensures EmailPattern(s)
  {
    var i := IndexOf(s, '@');
    var k :| i + 1 < k < |s| - 1 && s[k] == '.';
    assert forall j :: 0 <= j < i ==> s[..i][j] == s[j];
    var b, c := s[i + 1..k], s[k + 1..];
    assert forall j :: 0 <= j < |b| ==> b[j] == s[i + 1 + j];
    assert forall j :: 0 <= j < |c| ==> c[j] == s[k + 1 + j];
    assert EmailSplit(s, i, k);
  }

  lemma EmailCheckComplete(s: string, i: int, k: int)
    requires EmailSplit(s, i, k)
    ensures EmailCheck(s)
  {
    assert forall j :: 0 <= j < i ==> s[j] == s[..i][j];
    assert forall j :: i < j < k ==> s[j] == s[i + 1..k][j - i - 1];
    assert forall j :: k < j < |s| ==> s[j] == s[k + 1..][j - k - 1];
    assert IndexOf(s, '@') == i;
  }

  /** `validateEmail(email)`: the lowercased address matches the pattern. */
  function ValidateEmail(email: string): (ok: bool)
    ensures ok <==> EmailPattern(ToLower(email))
  {
    var s := ToLower(email);
    if EmailCheck(s) then EmailCheckSound(s); true
    else
      assert !EmailPattern(s) by {
        if EmailPattern(s) {
          var i, k :| EmailSplit(s, i, k);
          EmailCheckComplete(s, i, k);
        }
      }
      false
  }

  /** Lowercasing never changes the verdict: it keeps whitespace, `@` and `.`. */
  lemma ValidateEmailIgnoresCase(email: string)
    ensures ValidateEmail(ToLower(email)) == ValidateEmail(email)
  {
    ToLowerIdempotent(email);
  }

  // ---------------------------------------------------------------------
  // The landing-page menu

  /** The text of a menu link: `"Checklist # "` and the entry without its first `.html`, `_` read as spaces. */
  function MenuLabel(entry: string): (text: string)
    ensures StartsWith(text, "Checklist # ")
    ensures forall i :: 12 <= i < |text| ==> text[i] != '_'
    ensures |text| == 12 + |entry| - (if Find(entry, ".html") <= |entry| then 5 else 0)
  {
    "Checklist # " + ReplaceAllChar(ReplaceFirst(entry, ".html", ""), '_', ' ')
  }

  /** An entry `base + ".html"` with no dot in `base` is labelled by `base` alone. */
  lemma MenuLabelOfEntry(base: string)
    requires '.' !in base
    ensures MenuLabel(base + ".html") == "Checklist # " + ReplaceAllChar(base, '_', ' ')
  {
    var entry := base + ".html";
    FindHtmlSuffix(base);
    assert entry[..|base|] == base && entry[|base| + 5..] == [];
    assert ReplaceFirst(entry, ".html", "") == base;
  }

  /** The first `.html` of `base + ".html"` is the suffix when `base` has no dot. */
  lemma FindHtmlSuffix(base: string)
    requires '.' !in base
    ensures Find(base + ".html", ".html") == |base|
  {
    var entry := base + ".html";
    assert MatchesAt(entry, ".html", |base|);
    forall j | 0 <= j < |base| ensures !MatchesAt(entry, ".html", j) {
      assert entry[j] == base[j];
      assert j + 5 > |entry| || entry[j..j + 5][0] == entry[j];
    }
  }

  // ---------------------------------------------------------------------
  // markAssignmentCompleted

  /** The part of `path` after its last `/`, or all of it when there is none. */
  function LastSegment(path: string): (seg: string)
    ensures '/' !in seg
    ensures EndsWith(path, seg)
    ensures |seg| == |path| || path[|path| - |seg| - 1] == '/'
    decreases |path|
  {
    var k := IndexOf(path, '/');
    if k == |path| then path
    else
      var seg := LastSegment(path[k + 1..]);
      SegmentOfRest(path, k, seg);
      seg
  }

  /** A segment that ends the part after index `k` also ends `path`. */
  lemma SegmentOfRest(path: string, k: nat, seg: string)
    requires k < |path| && path[k] == '/'
    requires EndsWith(path[k + 1..], seg)
    requires |seg| == |path[k + 1..]| || path[k + 1..][|path[k + 1..]| - |seg| - 1] == '/'
    ensures EndsWith(path, seg)
    ensures |seg| == |path| || path[|path| - |seg| - 1] == '/'
  {
    var rest := path[k + 1..];
    assert path[|path| - |seg|..] == rest[|rest| - |seg|..];
    assert |seg| == |rest| ==> path[|path| - |seg| - 1] == path[k];
    assert |seg| < |rest| ==> path[|path| - |seg| - 1] == rest[|rest| - |seg| - 1];
  }

  /** `LastSegment` is `path.split('/').pop()`. */
  lemma {:induction false} LastSegmentIsPop(path: string)
    ensures LastSegment(path) == Last(Split(path, '/'))
    decreases |path|
  {
    var k := IndexOf(path, '/');
    if k < |path| {
      var rest := path[k + 1..];
      LastSegmentIsPop(rest);
      LastOfSplitStep(path, k);
      assert LastSegment(path) == LastSegment(rest) by { LastSegmentStep(path, k); }
    }
  }

  lemma LastSegmentStep(path: string, k: nat)
    requires k == IndexOf(path, '/') && k < |path|
    ensures LastSegment(path) == LastSegment(path[k + 1..])
  {
  }

  lemma LastOfSplitStep(path: string, k: nat)
    requires k == IndexOf(path, '/') && k < |path|
    ensures Last(Split(path, '/')) == Last(Split(path[k + 1..], '/'))
  {
    SplitStep(path, '/', k);
    LastOfCons(path[..k], Split(path[k + 1..], '/'));
  }

  lemma LastOfCons(head: string, tail: seq<string>)
    requires tail != []
    ensures Last([head] + tail) == Last(tail)
  {
  }

  function Last(parts: seq<string>): string
    requires parts != []
  {
    parts[|parts| - 1]
  }

  /**
   * The filename posted by `markAssignmentCompleted`, or `None` when the
   * request is skipped: the last segment must be non-empty and end in
   * `.html`, and an auth token must be held.
   */
  function CompletionFilename(path: string, authToken: Option<string>): (r: Option<string>)
    ensures r.Some? <==> LastSegment(path) != "" && EndsWith(LastSegment(path), ".html") && Truthy(authToken)
    ensures r.Some? ==> r.value == LastSegment(path) && '/' !in r.value && EndsWith(path, r.value)
  {
    var filename := LastSegment(path);
    if filename == "" || !EndsWith(filename, ".html") then None
    else if !Truthy(authToken) then None
    else Some(filename)
  }

  /**
   * A checklist page served from any directory reports its own file name,
   * which is the name the server's completion lookup expects.
   */
  lemma {:induction false} CompletionOfServedPage(dir: string, file: string, token: string)
    requires '/' !in file && EndsWith(file, ".html") && token != ""
    ensures CompletionFilename(dir + "/" + file, Some(token)) == Some(file)
  {
    var path := dir + "/" + file;
    var seg := LastSegment(path);
    assert path[|path| - |file| - 1] == '/';
    assert forall j :: |path| - |file| <= j < |path| ==> path[j] == file[j - (|path| - |file|)];
    assert forall j :: 0 <= j < |seg| ==> seg[j] == path[|path| - |seg| + j];
    assert |seg| == |file|;
    assert seg == path[|path| - |file|..] == file;
  }

  // ---------------------------------------------------------------------
  // The barcode scanner

  /** The element a scan of `value` toggles: the one `getElementById` finds, if it is a checkbox. */
  ghost predicate Toggles(els: seq<Element>, value: string, i: int) {
    0 <= i < |els| && value != "" && els[i].id == value && els[i].isCheckbox
    && forall j :: 0 <= j < i ==> els[j].id != value
  }

  /** The elements after Enter in the scanner input holding `input`. */
  function Scanned(els: seq<Element>, input: string): (r: seq<Element>)
    ensures |r| == |els|
    ensures forall i :: 0 <= i < |els| ==>
              r[i] == (if Toggles(els, Trim(input), i) then els[i].(checked := !els[i].checked) else els[i])
  {
    var v := Trim(input);
    if v == "" then els
    else
      var k := ElementById(els, v);
      if k < |els| && els[k].isCheckbox then els[k := els[k].(checked := !els[k].checked)] else els
  }

  /** The message shown after the scan, when the id names no checkbox. */
  function ScanMessage(els: seq<Element>, input: string): (m: Option<string>)
    ensures m.Some? <==> Trim(input) != "" && forall i :: 0 <= i < |els| ==> !Toggles(els, Trim(input), i)
    ensures m.Some? ==> m.value == "Checkbox ID not found: " + Trim(input)
  {
    var v := Trim(input);
    var k := ElementById(els, v);
    assert v != "" && k < |els| && els[k].isCheckbox ==> Toggles(els, v, k);
    if v != "" && !(k < |els| && els[k].isCheckbox) then Some("Checkbox ID not found: " + v) else None
  }

  /** At most one element changes in a scan, and only its `checked` flag. */
  lemma ScanTogglesAtMostOne(els: seq<Element>, input: string, i: int, j: int)
    requires 0 <= i < |els| && 0 <= j < |els|
    requires Scanned(els, input)[i] != els[i] && Scanned(els, input)[j] != els[j]
    ensures i == j
    ensures Scanned(els, input)[i] == els[i].(checked := !els[i].checked)
  {
  }

  /** Scanning the same code twice leaves every checkbox as it was. */
  lemma ScanTwiceRestores(els: seq<Element>, input: string)
    ensures Scanned(Scanned(els, input), input) == els
  {
    var once := Scanned(els, input);
    var v := Trim(input);
    forall i | 0 <= i < |els| ensures Toggles(once, v, i) <==> Toggles(els, v, i) {
      assert forall j :: 0 <= j < |els| ==> once[j].id == els[j].id && once[j].isCheckbox == els[j].isCheckbox;
    }
  }

  class Page {
    /** The `name` input, `None` on a page without one. */
    var nameField: Option<string>
    var elements: seq<Element>
    var scannerValue: string
    var lastMessage: Option<string>

    constructor (nameField: Option<string>, elements: seq<Element>)
      ensures this.nameField == nameField && this.elements == elements
      ensures scannerValue == "" && lastMessage.None?
    {
      this.nameField := nameField;
      this.elements := elements;
      scannerValue := "";
      lastMessage := None;
    }

    /** `populateAssociateName()` for the logged-in `user`. */
    method PopulateAssociateName(user: Option<CurrentUser>)
      modifies this
      ensures nameField == FilledName(user, old(nameField))
      ensures elements == old(elements) && scannerValue == old(scannerValue) && lastMessage == old(lastMessage)
    {
      if user.None? || !Truthy(user.value.firstName) || !Truthy(user.value.lastName) {
        return;
      }
      if nameField.None? {
        return;
      }
      if nameField.value != "" && Trim(nameField.value) != "" {
        return;
      }
      nameField := Some(user.value.firstName.value + " " + user.value.lastName.value);
    }

    /**
     * The scanner's Enter handler: the checkbox named by the trimmed input
     * flips, an unknown id shows a message, and the input is cleared.
     */
    method ScanEnter()
      modifies this
      ensures elements == Scanned(old(elements), old(scannerValue))
      ensures lastMessage == (if ScanMessage(old(elements), old(scannerValue)).Some?
                              then ScanMessage(old(elements), old(scannerValue)) else old(lastMessage))
      ensures scannerValue == ""
      ensures nameField == old(nameField)
    {
      var scanned := Trim(scannerValue);
      if scanned != "" {
        var k := ElementById(elements, scanned);
        if k < |elements| && elements[k].isCheckbox {
          elements := elements[k := elements[k].(checked := !elements[k].checked)];
        } else {
          lastMessage := Some("Checkbox ID not found: " + scanned);
        }
      }
      scannerValue := "";
    }
  }
}
