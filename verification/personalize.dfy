/** Per-recipient personalisation: `content.replace(/\[Name\]/g, name)`
    (src/lib/email.ts line 52, inlined again in
    src/app/api/send-email/route.ts line 69).

    The replacement is global, left to right, without overlap and without
    rescanning inserted text. Because `name` is used as a JavaScript
    replacement string, the patterns `$$`, `$&`, `` $` `` and `$'` inside it
    are expanded at every match. */
module Personalize {
  import opened Strings

  /** The literal placeholder replaced in every message body. */
  const Placeholder := "[Name]"

  /** The text inserted for one match when `rep` is the replacement string,
      following the GetSubstitution operation of ECMA-262 for a pattern
      without capture groups: `$$` gives `$`, `$&` the matched placeholder,
      `` $` `` the text before the match, `$'` the text after it; any other
      `$` (including `$1` and `$<`) is copied literally. */
  function Substitution(rep: string, before: string, after: string): string
    decreases |rep|
  {
    if rep == [] then ""
    else if rep[0] == '$' && |rep| >= 2 && rep[1] == '$' then "$" + Substitution(rep[2..], before, after)
    else if rep[0] == '$' && |rep| >= 2 && rep[1] == '&' then Placeholder + Substitution(rep[2..], before, after)
    else if rep[0] == '$' && |rep| >= 2 && rep[1] == '`' then before + Substitution(rep[2..], before, after)
    else if rep[0] == '$' && |rep| >= 2 && rep[1] == '\'' then after + Substitution(rep[2..], before, after)
    else [rep[0]] + Substitution(rep[1..], before, after)
  }

  /** The global replace over `rest`, where `done` is the part of the
      original content already scanned. */
  function ReplaceFrom(done: string, rest: string, name: string): string
    decreases |rest|
  {
    if |rest| < |Placeholder| then rest
    else if rest[..|Placeholder|] == Placeholder then
      Substitution(name, done, rest[|Placeholder|..])
        + ReplaceFrom(done + Placeholder, rest[|Placeholder|..], name)
    else [rest[0]] + ReplaceFrom(done + [rest[0]], rest[1..], name)
  }

  /** `personalizeContent(content, recipientName)`: content without the
      placeholder comes back unchanged, and a name without `$` is put in
      place of every placeholder found left to right. */
  function PersonalizeContent(content: string, name: string): (r: string)
    ensures !HasInfix(content, Placeholder) ==> r == content
    ensures '$' !in name ==> r == Join(SplitOn(content, Placeholder), name)
  {
    LiteralNameIsSplitJoin(content, name);
    NoPlaceholderUnchanged(content, name);
    ReplaceFrom("", content, name)
  }

  /** A replacement string without `$` is inserted as it is. */
  lemma {:induction false} SubstitutionLiteral(rep: string, before: string, after: string)
    requires '$' !in rep
    ensures Substitution(rep, before, after) == rep
    decreases |rep|
  {
    if rep != [] {
      assert rep[0] != '$';
      assert '$' !in rep[1..];
      SubstitutionLiteral(rep[1..], before, after);
    }
  }

  /** `$&` re-inserts the placeholder, whatever surrounds the match. */
  lemma SubstitutionOfMatch(before: string, after: string)
    ensures Substitution("$&", before, after) == Placeholder
  {
    assert "$&"[2..] == [];
  }

  /** When a name expands to the same text `lit` at every match, the result
      is the content cut at the placeholders, left to right, and joined with
      `lit`: inserted text is never scanned again. */
  lemma {:induction false} ReplaceFromIsSplitJoin(done: string, rest: string, name: string, lit: string)
    requires forall b, a :: Substitution(name, b, a) == lit
    ensures ReplaceFrom(done, rest, name) == Join(SplitOn(rest, Placeholder), lit)
    decreases |rest|
  {
    if |rest| < |Placeholder| {
    } else if rest[..|Placeholder|] == Placeholder {
      var tail := rest[|Placeholder|..];
      ReplaceFromIsSplitJoin(done + Placeholder, tail, name, lit);
      var parts := SplitOn(tail, Placeholder);
      assert SplitOn(rest, Placeholder) == [""] + parts;
      JoinEmptyHead(parts, lit);
      assert Substitution(name, done, tail) == lit;
    } else {
      ReplaceFromIsSplitJoin(done + [rest[0]], rest[1..], name, lit);
      JoinPrependHead([rest[0]], SplitOn(rest[1..], Placeholder), lit);
    }
  }

  /** For a name without `$`, the replace equals splitting the content on
      the placeholder and joining the pieces with the name. */
  lemma LiteralNameIsSplitJoin(content: string, name: string)
    ensures '$' !in name ==> ReplaceFrom("", content, name) == Join(SplitOn(content, Placeholder), name)
  {
    if '$' !in name {
      forall b, a
        ensures Substitution(name, b, a) == name
      {
        SubstitutionLiteral(name, b, a);
      }
      ReplaceFromIsSplitJoin("", content, name, name);
    }
  }

  /** Content without the placeholder is returned unchanged, for any name. */
  lemma {:induction false} ReplaceWithoutPlaceholder(done: string, rest: string, name: string)
    requires !HasInfix(rest, Placeholder)
    ensures ReplaceFrom(done, rest, name) == rest
    decreases |rest|
  {
    if |rest| >= |Placeholder| {
      ReplaceWithoutPlaceholder(done + [rest[0]], rest[1..], name);
    }
  }

  /** Content without the placeholder is returned unchanged, for any name. */
  lemma NoPlaceholderUnchanged(content: string, name: string)
    ensures !HasInfix(content, Placeholder) ==> ReplaceFrom("", content, name) == content
  {
    if !HasInfix(content, Placeholder) {
      ReplaceWithoutPlaceholder("", content, name);
    }
  }

  /** The number of placeholders the replace finds, left to right without
      overlap. */
  function Occurrences(content: string): nat {
    |SplitOn(content, Placeholder)| - 1
  }

  /** Each of the `k` placeholders found is replaced by the name: the result
      is `k * (|name| - 6)` characters longer than the content. */
  lemma PersonalizeLength(content: string, name: string)
    requires '$' !in name
    ensures |PersonalizeContent(content, name)| == |content| + Occurrences(content) * (|name| - |Placeholder|)
  {
    var parts := SplitOn(content, Placeholder);
    SplitJoinRoundTrip(content, Placeholder);
    JoinLength(parts, name);
    JoinLength(parts, Placeholder);
    var k := |parts| - 1;
    assert k * |name| - k * |Placeholder| == k * (|name| - |Placeholder|);
  }

  /** Substituting the placeholder for itself restores the content. */
  lemma PersonalizeWithPlaceholder(content: string)
    ensures PersonalizeContent(content, Placeholder) == content
  {
    SplitJoinRoundTrip(content, Placeholder);
  }

  /** A name of `$&` leaves every placeholder in place: the replacement
      string is expanded, not inserted literally. */
  lemma PersonalizeWithMatchPattern(content: string)
    ensures PersonalizeContent(content, "$&") == content
  {
    forall b, a
      ensures Substitution("$&", b, a) == Placeholder
    {
      SubstitutionOfMatch(b, a);
    }
    ReplaceFromIsSplitJoin("", content, "$&", Placeholder);
    SplitJoinRoundTrip(content, Placeholder);
  }

  /** The composer's example: "Hello [Name]!" for Ana reads "Hello Ana!". */
  lemma PersonalizeHelloExample()
    ensures PersonalizeContent("Hello [Name]!", "Ana") == "Hello Ana!"
  {
    var a, b := "Hello ", "!";
    assert a + Placeholder + b == "Hello [Name]!";
    OnePlaceholder(a, b, "Ana");
    assert a + "Ana" + b == "Hello Ana!";
  }

  /** Content with a single placeholder, short text after it and no `[`
      before it gets the name in place of that placeholder. */
  lemma OnePlaceholder(a: string, b: string, name: string)
    requires '[' !in a && |b| < |Placeholder| && '$' !in name
    ensures PersonalizeContent(a + Placeholder + b, name) == a + name + b
  {
    assert forall i :: 0 <= i < |a| ==> a[i] != Placeholder[0];
    SplitOnSkip(a, Placeholder + b, Placeholder);
    SplitOnAtSep(b, Placeholder);
    assert a + Placeholder + b == a + (Placeholder + b);
    var parts := [a] + [b];
    assert SplitOn(a + Placeholder + b, Placeholder) == [a + ""] + [b];
    assert a + "" == a;
    assert parts[1..] == [b];
    assert Join(parts, name) == a + name + b;
  }

  /** The replace makes one pass: removing the inner placeholder of
      "[[Name]Name]" forms a new one that stays in the result. */
  lemma PersonalizeSinglePassExample()
    ensures PersonalizeContent("[[Name]Name]", "") == "[Name]"
  {
    var s := "[[Name]Name]";
    assert s[..6][1] == '[';
    assert s[..6] != Placeholder;
    assert s[1..] == Placeholder + "Name]";
    SplitOnAtSep("Name]", Placeholder);
    assert SplitOn("Name]", Placeholder) == ["Name]"];
    assert SplitOn(s[1..], Placeholder) == ["", "Name]"];
    assert SplitOn(s, Placeholder) == [[s[0]] + ""] + ["Name]"];
  }
}
