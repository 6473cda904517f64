/** The small decision rules of the renderer (renderer.js) that sit in front of
    the repository: the CF-ready checkbox, the advisory link probe, the filter
    object built from the filter panel, and the password form's pre-checks. Each
    is stated together with the repository behaviour it anticipates. */
module Ui {
  import opened Basics
  import opened Text
  import opened Bcrypt
  import opened Schema
  import opened Tasks
  import opened Accounts

  // ---------------------------------------------------------------------------
  // CF-ready checkbox
  // ---------------------------------------------------------------------------

  /** The checkbox follows the link field: `value.includes('codeforces.com')`. */
  predicate CfCheckboxChecked(link: string) {
    Contains(link, CodeforcesMarker)
  }

  /** The checkbox always shows the flag the repository will store, although the
      two are computed separately (the repository also tests for an empty link). */
  lemma CheckboxAgreesWithStoredFlag(link: string)
    ensures CfCheckboxChecked(link) <==> CfReadyFor(link)
  {
    if link == "" {
      EmptyContainsNothing(CodeforcesMarker);
    }
  }

  // ---------------------------------------------------------------------------
  // Advisory link probe
  // ---------------------------------------------------------------------------

  /** What the link field shows under itself. */
  datatype LinkHint = Hidden | DuplicateWarning

  /** The renderer's `checkLinkUniqueness(link, errorElement, currentTaskId)`: an
      empty link is not checked at all; otherwise the repository probe decides. */
  function ProbeLink(s: Store, link: string, current: Option<int>): (hint: LinkHint)
    ensures link == "" ==> hint == Hidden
    ensures link != "" ==>
      (hint == DuplicateWarning <==>
        if Excludes(current) then LinkHeldByOther(s, link, current.value) else LinkHeld(s, link))
  {
    if link == "" then Hidden
    else if CheckLinkUniqueness(s, link, current) then Hidden
    else DuplicateWarning
  }

  /** For a non-empty link in the create form, the warning appears exactly when
      `addTask` would reject the link (for a difficulty the CHECK admits). */
  lemma CreateWarningPredictsRejection(s: Store, d: TaskInput)
    requires Valid(s) && d.link != "" && DifficultyAllowed(d.difficulty)
    ensures ProbeLink(s, d.link, None) == DuplicateWarning <==> AddTask(s, d).reply == Fail(LinkTaken)
  {
  }

  /** In the edit form, with the task's own id, likewise for `updateTask`. */
  lemma EditWarningPredictsRejection(s: Store, id: int, d: TaskInput)
    requires Valid(s) && id in s.tasks && id != 0 && d.link != "" && DifficultyAllowed(d.difficulty)
    ensures ProbeLink(s, d.link, Some(id)) == DuplicateWarning
      <==> UpdateTask(s, id, d).reply == Fail(LinkTaken)
  {
  }

  /** The empty link is the gap: the probe stays silent, yet once some task has no
      link a second link-less task is rejected with the link message. */
  lemma EmptyLinkSlipsPastProbe(s: Store, d: TaskInput)
    requires Valid(s) && d.link == "" && LinkHeld(s, "") && DifficultyAllowed(d.difficulty)
    ensures ProbeLink(s, d.link, None) == Hidden
    ensures AddTask(s, d).reply == Fail(LinkTaken)
  {
  }

  // ---------------------------------------------------------------------------
  // Filter construction
  // ---------------------------------------------------------------------------

  /** The tag checkboxes carry their `TagID` as text, and each is read back with
      `parseInt`. AUTOINCREMENT ids stay far below 2^53. */
  function CheckedTagIds(checked: seq<int>): (ids: seq<int>)
    requires forall i :: 0 <= i < |checked| ==> SafeInteger(checked[i])
    ensures ids == checked
    decreases |checked|
  {
    if |checked| == 0 then []
    else
      ParseIntOfDecimal(checked[0]);
      [ParseInt(DecimalString(checked[0])).value] + CheckedTagIds(checked[1..])
  }

  /** The apply-filter and report handlers: each difficulty field goes through
      `parseInt(value, 10)` and `NaN` becomes null; the tags are the checked
      checkboxes, in page order. */
  function BuildFilter(minText: string, maxText: string, checked: seq<int>): (f: Filter)
    requires forall i :: 0 <= i < |checked| ==> SafeInteger(checked[i])
    ensures f.tags == checked
  {
    Filter(ParseInt(minText), ParseInt(maxText), CheckedTagIds(checked))
  }

  /** A bound field with no digit in it yields no bound, so it filters nothing;
      each field is read on its own. */
  lemma NonNumericBoundIgnored(minText: string, maxText: string, checked: seq<int>)
    requires forall i :: 0 <= i < |checked| ==> SafeInteger(checked[i])
    ensures (forall i :: 0 <= i < |minText| ==> !IsDigit(minText[i])) ==>
      && BuildFilter(minText, maxText, checked).minDifficulty == None
      && !BoundActive(BuildFilter(minText, maxText, checked).minDifficulty)
    ensures (forall i :: 0 <= i < |maxText| ==> !IsDigit(maxText[i])) ==>
      && BuildFilter(minText, maxText, checked).maxDifficulty == None
      && !BoundActive(BuildFilter(minText, maxText, checked).maxDifficulty)
  {
    if forall i :: 0 <= i < |minText| ==> !IsDigit(minText[i]) {
      ParseIntWithoutDigits(minText);
    }
    if forall i :: 0 <= i < |maxText| ==> !IsDigit(maxText[i]) {
      ParseIntWithoutDigits(maxText);
    }
  }

  /** A number typed into a bound field becomes that bound. */
  lemma TypedBoundsRead(lo: int, hi: int, checked: seq<int>)
    requires SafeInteger(lo) && SafeInteger(hi)
    requires forall i :: 0 <= i < |checked| ==> SafeInteger(checked[i])
    ensures BuildFilter(DecimalString(lo), DecimalString(hi), checked)
      == Filter(Some(lo), Some(hi), checked)
  {
    ParseIntOfDecimal(lo);
    ParseIntOfDecimal(hi);
  }

  /** An empty panel lists every task. */
  lemma EmptyPanelListsEverything(s: Store)
    ensures MatchingIds(s, BuildFilter("", "", [])) == s.tasks.Keys
  {
    ParseIntWithoutDigits("");
    NoFilterListsEverything(s, BuildFilter("", "", []));
  }

  // ---------------------------------------------------------------------------
  // Password form
  // ---------------------------------------------------------------------------

  /** Outcome of the password form's pre-checks. */
  datatype FormCheck = FormTooShort | FormMismatch | Submit

  /** `newPassword.length < 6` is tested before `newPassword !== confirmNewPassword`;
      only when both pass is `updateAdminPassword` called. */
  function PasswordForm(newPassword: string, confirmation: string): (r: FormCheck)
    ensures r == FormTooShort <==> TooShort(newPassword)
    ensures r == FormMismatch <==> !TooShort(newPassword) && newPassword != confirmation
    ensures r == Submit ==> newPassword == confirmation
  {
    if Utf16Length(newPassword) < MinPasswordLength then FormTooShort
    else if newPassword != confirmation then FormMismatch
    else Submit
  }

  /** A submitted form never meets the repository's length guard: with the admin
      present and the old password right, the rotation goes through, and the
      administrator can then log in with the new password. */
  lemma SubmittedFormRotates(s: Store, oldPassword: string, newPassword: string, confirmation: string, salt: int)
    requires Valid(s) && PasswordForm(newPassword, confirmation) == Submit
    requires AdminName in s.users && Verify(oldPassword, s.users[AdminName].hash)
    ensures RotateAdminPassword(s, oldPassword, newPassword, salt).reply == Rotated
    ensures Login(RotateAdminPassword(s, oldPassword, newPassword, salt).store, AdminName, newPassword)
      == LoggedIn(Admin)
  {
    RotateThenLogin(s, oldPassword, newPassword, salt);
  }
}
