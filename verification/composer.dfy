/** The composer's state operations (src/components/EmailComposer.tsx): the
    address-shape check, adding and removing recipients, taking over a
    preloaded list, and the ordered checks `handleSend` runs before handing
    the batch on. */
module Composer {
  import opened Wrappers
  import opened Strings
  import opened Types

  /** The editor's initial HTML; sending it unchanged is refused. */
  const DefaultContent := "<p>Hello [Name], write your message here...</p>"
  const SubjectMissingMessage := "Please enter an email subject."
  const ContentMissingMessage := "Please write your email content."
  const NoRecipientsMessage := "Please add at least one recipient."
  const InvalidEmailsPrefix := "The following email addresses appear to be invalid: "

  /* ---------------------------------------------------------------------- */
  /* validateEmail                                                          */
  /* ---------------------------------------------------------------------- */

  /** A character the class `[^\s@]` accepts. */
  predicate IsAtomChar(c: char) {
    !IsWhitespace(c) && c != '@'
  }

  /** A string made only of `[^\s@]` characters (possibly empty). */
  predicate IsAtomRun(s: string) {
    forall k :: 0 <= k < |s| ==> IsAtomChar(s[k])
  }

  /** The index of the first `c` in `s`, or -1. */
  function IndexOf(s: string, c: char): (r: int)
    ensures r == -1 <==> c !in s
    ensures r != -1 ==> 0 <= r < |s| && s[r] == c && c !in s[..r]
  {
    if s == [] then -1
    else if s[0] == c then 0
    else
      var t := IndexOf(s[1..], c);
      if t == -1 then -1
      else
        assert s[..t + 1] == [s[0]] + s[1..][..t];
        t + 1
  }

  /** A '.' strictly inside `d`: neither its first nor its last character. */
  predicate HasInnerDot(d: string) {
    exists k :: 0 < k < |d| - 1 && d[k] == '.'
  }

  /** `validateEmail`, decided directly: the address is split at its first
      '@'; the part before is non-empty, neither part holds whitespace or a
      second '@', and the part after has a '.' that is neither first nor last. */
  function ValidateEmail(s: string): (ok: bool)
    ensures ok ==> |s| >= 5 && multiset(s)['@'] == 1
    ensures ok ==> forall k :: 0 <= k < |s| ==> !IsWhitespace(s[k])
  {
    var at := IndexOf(s, '@');
    if at > 0 && IsAtomRun(s[..at]) && IsAtomRun(s[at + 1..]) && HasInnerDot(s[at + 1..]) then
      AtSplit(s, at);
      assert forall k :: 0 <= k < |s| ==> !IsWhitespace(s[k]) by {
        forall k | 0 <= k < |s|
          ensures !IsWhitespace(s[k])
        {
          if k < at {
            assert s[k] == s[..at][k];
          } else if k > at {
            assert s[k] == s[at + 1..][k - at - 1];
          }
        }
      }
      true
    else false
  }

  /** Splitting at an '@' that has no other '@' on either side leaves exactly
      one in the whole string. */
  lemma AtSplit(s: string, at: nat)
    requires at < |s| && s[at] == '@'
    requires IsAtomRun(s[..at]) && IsAtomRun(s[at + 1..])
    ensures multiset(s)['@'] == 1
  {
    assert s == s[..at] + [s[at]] + s[at + 1..];
    AtomRunHasNoAt(s[..at]);
    AtomRunHasNoAt(s[at + 1..]);
  }

  /** A run of `[^\s@]` characters contains no '@'. */
  lemma AtomRunHasNoAt(t: string)
    requires IsAtomRun(t)
    ensures multiset(t)['@'] == 0
  {
    assert forall k :: 0 <= k < |t| ==> IsAtomChar(t[k]);
    assert '@' !in t;
  }

  /** The regular expression `^[^\s@]+@[^\s@]+\.[^\s@]+$` as a statement
      about positions: an '@' at `i` and a '.' at `j` cut the address into
      three non-empty runs of `[^\s@]`. */
  ghost predicate MatchesEmailPattern(s: string) {
    exists i, j :: 0 < i && i + 1 < j && j + 1 < |s| && s[i] == '@' && s[j] == '.'
      && IsAtomRun(s[..i]) && IsAtomRun(s[i + 1..j]) && IsAtomRun(s[j + 1..])
  }

  /** The direct decision agrees with the regular expression, both ways. */
  lemma ValidateEmailMatchesPattern(s: string)
    ensures ValidateEmail(s) <==> MatchesEmailPattern(s)
  {
    if ValidateEmail(s) {
      var at := IndexOf(s, '@');
      var d := s[at + 1..];
      var k :| 0 < k < |d| - 1 && d[k] == '.';
      var j := at + 1 + k;
      assert s[at + 1..j] == d[..k];
      assert s[j + 1..] == d[k + 1..];
      assert IsAtomRun(d[..k]) by {
        forall m | 0 <= m < k ensures IsAtomChar(d[..k][m]) {
          assert d[..k][m] == d[m];
        }
      }
      var e := d[k + 1..];
      assert IsAtomRun(e) by {
        forall m | 0 <= m < |e| ensures IsAtomChar(e[m]) {
          assert e[m] == d[k + 1 + m];
        }
      }
      assert s[j] == '.';
    }
    if MatchesEmailPattern(s) {
      var i, j :| 0 < i && i + 1 < j && j + 1 < |s| && s[i] == '@' && s[j] == '.'
        && IsAtomRun(s[..i]) && IsAtomRun(s[i + 1..j]) && IsAtomRun(s[j + 1..]);
      PatternIsValid(s, i, j);
    }
  }

  /** The witnesses of the pattern make the direct decision succeed. */
  lemma PatternIsValid(s: string, i: nat, j: nat)
    requires 0 < i && i + 1 < j && j + 1 < |s| && s[i] == '@' && s[j] == '.'
    requires IsAtomRun(s[..i]) && IsAtomRun(s[i + 1..j]) && IsAtomRun(s[j + 1..])
    ensures ValidateEmail(s)
  {
    assert forall m :: 0 <= m < i ==> IsAtomChar(s[..i][m]);
    assert '@' !in s[..i];
    assert s[..i + 1] == s[..i] + [s[i]];
    IndexOfFirst(s, '@', i);
    var d := s[i + 1..];
    assert d == s[i + 1..j] + [s[j]] + s[j + 1..];
    assert IsAtomRun(d) by {
      forall m | 0 <= m < |d| ensures IsAtomChar(d[m]) {
        if m < j - i - 1 {
          assert d[m] == s[i + 1..j][m];
        } else if m > j - i - 1 {
          assert d[m] == s[j + 1..][m - (j - i)];
        }
      }
    }
    assert d[j - i - 1] == '.';
  }

  /** A `c` at `i` with none before it is the first one. */
  lemma IndexOfFirst(s: string, c: char, i: nat)
    requires i < |s| && s[i] == c && c !in s[..i]
    ensures IndexOf(s, c) == i
  {
  }

  /* ---------------------------------------------------------------------- */
  /* Recipient list operations                                              */
  /* ---------------------------------------------------------------------- */

  /** The composer's state: subject, recipients, the two input boxes of the
      "add recipient" form, and the editor's HTML (`None` before the editor
      exists). */
  datatype ComposerState = ComposerState(
    subject: string,
    recipients: seq<Recipient>,
    newName: string,
    newEmail: string,
    editorHtml: Option<string>)

  /** `addRecipient`: with both boxes non-blank, appends the trimmed pair and
      clears the boxes; otherwise changes nothing. */
  function AddRecipient(st: ComposerState): (r: ComposerState)
    ensures r == st <==> IsBlank(st.newName) || IsBlank(st.newEmail)
    ensures r != st ==>
      && r == st.(recipients := r.recipients, newName := "", newEmail := "")
      && |r.recipients| == |st.recipients| + 1
      && r.recipients[..|st.recipients|] == st.recipients
      && var added := r.recipients[|st.recipients|];
      && added.name != "" && IsTrimmed(added.name)
      && added.email != "" && IsTrimmed(added.email)
    ensures r != st ==> r.recipients == st.recipients + [Recipient(Trim(st.newName), Trim(st.newEmail))]
  {
    var name := Trim(st.newName);
    var email := Trim(st.newEmail);
    if name != "" && email != "" then
      assert |st.recipients + [Recipient(name, email)]| != |st.recipients|;
      st.(recipients := st.recipients + [Recipient(name, email)], newName := "", newEmail := "")
    else st
  }

  /** `recipients.filter((_, i) => i !== index)`, with `offset` the position
      of `rs[0]` in the whole list. */
  function RemoveFrom(rs: seq<Recipient>, index: int, offset: int): seq<Recipient> {
    if rs == [] then []
    else (if offset == index then [] else [rs[0]]) + RemoveFrom(rs[1..], index, offset + 1)
  }

  /** `removeRecipient(index)`: deletes exactly the `index`-th entry and
      keeps the others in order; an index outside the list changes nothing. */
  function RemoveRecipient(rs: seq<Recipient>, index: int): (r: seq<Recipient>)
    ensures 0 <= index < |rs| ==> r == rs[..index] + rs[index + 1..]
    ensures !(0 <= index < |rs|) ==> r == rs
  {
    if 0 <= index < |rs| then
      RemoveFromInside(rs, index, 0);
      RemoveFrom(rs, index, 0)
    else
      RemoveFromOutside(rs, index, 0);
      RemoveFrom(rs, index, 0)
  }

  /** The position filter keeps everything when `index` lies outside the
      current window. */
  lemma {:induction false} RemoveFromOutside(rs: seq<Recipient>, index: int, offset: int)
    requires !(offset <= index < offset + |rs|)
    ensures RemoveFrom(rs, index, offset) == rs
  {
    if rs != [] {
      RemoveFromOutside(rs[1..], index, offset + 1);
      assert rs == [rs[0]] + rs[1..];
    }
  }

  /** The position filter deletes exactly the entry at `index` when it lies
      in the current window. */
  lemma {:induction false} RemoveFromInside(rs: seq<Recipient>, index: int, offset: int)
    requires offset <= index < offset + |rs|
    ensures RemoveFrom(rs, index, offset) == rs[..index - offset] + rs[index - offset + 1..]
  {
    if offset == index {
      RemoveFromOutside(rs[1..], index, offset + 1);
      assert rs[..0] + rs[1..] == rs[1..];
    } else {
      var k := index - offset;
      var tail := rs[1..];
      RemoveFromInside(tail, index, offset + 1);
      assert RemoveFrom(rs, index, offset) == [rs[0]] + (tail[..k - 1] + tail[k..]);
      assert rs[..k] == [rs[0]] + tail[..k - 1];
      assert rs[k + 1..] == tail[k..];
    }
  }

  /** Removing the entry just added restores the list. */
  lemma RemoveUndoesAdd(st: ComposerState)
    requires !IsBlank(st.newName) && !IsBlank(st.newEmail)
    ensures RemoveRecipient(AddRecipient(st).recipients, |st.recipients|) == st.recipients
  {
    var rs := AddRecipient(st).recipients;
    assert rs[|st.recipients| + 1..] == [];
  }

  /** The effect of `preloadedRecipients`: a non-empty list replaces the
      current recipients, an empty one leaves them alone. */
  function ApplyPreloaded(current: seq<Recipient>, preloaded: seq<Recipient>): (r: seq<Recipient>)
    ensures r == current || r == preloaded
    ensures r == [] ==> current == [] && preloaded == []
    ensures |preloaded| > 0 ==> r == preloaded
    ensures preloaded == [] ==> r == current
  {
    if |preloaded| > 0 then preloaded else current
  }

  /** Applying the same preloaded list twice is applying it once. */
  lemma ApplyPreloadedIdempotent(current: seq<Recipient>, preloaded: seq<Recipient>)
    ensures ApplyPreloaded(ApplyPreloaded(current, preloaded), preloaded) == ApplyPreloaded(current, preloaded)
  {
  }

  /* ---------------------------------------------------------------------- */
  /* handleSend                                                             */
  /* ---------------------------------------------------------------------- */

  /** The addresses `validateEmail` rejects, in list order. */
  function InvalidEmails(rs: seq<Recipient>): (bad: seq<string>)
    ensures |bad| <= |rs|
    ensures forall k :: 0 <= k < |bad| ==> !ValidateEmail(bad[k])
    // exactly the rejected recipients' addresses are listed
    ensures forall e :: e in bad <==> exists k :: 0 <= k < |rs| && rs[k].email == e && !ValidateEmail(e)
  {
    if rs == [] then []
    else
      var tail := InvalidEmails(rs[1..]);
      assert forall k :: 1 <= k < |rs| ==> rs[k] == rs[1..][k - 1];
      (if ValidateEmail(rs[0].email) then [] else [rs[0].email]) + tail
  }

  /** A single recipient is reported with its own address exactly when
      that address is invalid. */
  lemma InvalidEmailsOne(r: Recipient)
    ensures InvalidEmails([r]) == if ValidateEmail(r.email) then [] else [r.email]
  {
    assert [r][1..] == [];
  }

  /** No address is reported exactly when every address is valid. */
  lemma InvalidEmailsEmpty(rs: seq<Recipient>)
    ensures InvalidEmails(rs) == [] <==> forall k :: 0 <= k < |rs| ==> ValidateEmail(rs[k].email)
  {
    var bad := InvalidEmails(rs);
    assert bad != [] ==> bad[0] in bad;
    assert forall k :: 0 <= k < |rs| ==> ValidateEmail(rs[k].email) || rs[k].email in bad;
  }

  /** The report of a concatenation lists the first part's addresses first. */
  lemma {:induction false} InvalidEmailsAppend(a: seq<Recipient>, b: seq<Recipient>)
    ensures InvalidEmails(a + b) == InvalidEmails(a) + InvalidEmails(b)
  {
    if a == [] {
      assert a + b == b;
    } else {
      assert (a + b)[0] == a[0];
      assert (a + b)[1..] == a[1..] + b;
      InvalidEmailsAppend(a[1..], b);
    }
  }

  /** What `handleSend` does: alert, or hand the batch to `onSendEmails`. */
  datatype SendDecision = Alert(message: string) | Dispatch(data: EmailData)

  /** `handleSend`: the content is the editor's HTML or ''; the checks run in
      order and the first that fails raises its alert. */
  function HandleSend(st: ComposerState): (d: SendDecision)
    ensures var content := st.editorHtml.GetOr("");
      d.Dispatch? <==>
        && !IsBlank(st.subject)
        && !IsBlank(content) && content != DefaultContent
        && |st.recipients| > 0
        && forall k :: 0 <= k < |st.recipients| ==> ValidateEmail(st.recipients[k].email)
    ensures d.Dispatch? ==> d.data == EmailData(st.subject, st.editorHtml.GetOr(""), st.recipients, None)
    ensures IsBlank(st.subject) ==> d == Alert(SubjectMissingMessage)
    ensures !IsBlank(st.subject) && (IsBlank(st.editorHtml.GetOr("")) || st.editorHtml.GetOr("") == DefaultContent)
      ==> d == Alert(ContentMissingMessage)
    ensures d == Alert(NoRecipientsMessage) <==>
      && !IsBlank(st.subject)
      && !IsBlank(st.editorHtml.GetOr("")) && st.editorHtml.GetOr("") != DefaultContent
      && st.recipients == []
    ensures var content := st.editorHtml.GetOr("");
      (&& !IsBlank(st.subject)
       && !IsBlank(content) && content != DefaultContent
       && st.recipients != []
       && InvalidEmails(st.recipients) != [])
      ==> d == Alert(InvalidEmailsPrefix + Join(InvalidEmails(st.recipients), ", "))
  {
    var content := st.editorHtml.GetOr("");
    InvalidEmailsEmpty(st.recipients);
    if Trim(st.subject) == "" then Alert(SubjectMissingMessage)
    else if Trim(content) == "" || content == DefaultContent then Alert(ContentMissingMessage)
    else if |st.recipients| == 0 then Alert(NoRecipientsMessage)
    else
      var bad := InvalidEmails(st.recipients);
      if |bad| > 0 then
        assert InvalidEmailsPrefix <= InvalidEmailsPrefix + Join(bad, ", ");
        Alert(InvalidEmailsPrefix + Join(bad, ", "))
      else Dispatch(EmailData(st.subject, content, st.recipients, None))
  }

  /** A preloaded list that passes the checks is exactly what is sent. */
  lemma PreloadedDispatch(st: ComposerState, preloaded: seq<Recipient>)
    requires preloaded != []
    requires HandleSend(st.(recipients := ApplyPreloaded(st.recipients, preloaded))).Dispatch?
    ensures HandleSend(st.(recipients := ApplyPreloaded(st.recipients, preloaded))).data.recipients == preloaded
  {
  }
}
