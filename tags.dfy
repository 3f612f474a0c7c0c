/** Struct-tag helpers of bean.go: `parseTag` and `isValidTag`. */
module Tags {

  /** bean.go:539-542: the tag text before the first comma (`strings.Cut`). */
  function ParseTag(tag: string): string {
    if tag == [] then []
    else if tag[0] == ',' then []
    else [tag[0]] + ParseTag(tag[1..])
  }

  /** The name part is a comma-free prefix of the tag that ends at the first comma,
      or at the end of the tag when it has none. */
  lemma {:induction false} ParseTagSpec(tag: string)
    ensures |ParseTag(tag)| <= |tag| && ParseTag(tag) == tag[..|ParseTag(tag)|]
    ensures ',' !in ParseTag(tag)
    ensures |ParseTag(tag)| < |tag| ==> tag[|ParseTag(tag)|] == ','
    ensures ',' !in tag ==> ParseTag(tag) == tag
  {
    if tag != [] && tag[0] != ',' {
      ParseTagSpec(tag[1..]);
      assert ParseTag(tag) == [tag[0]] + ParseTag(tag[1..]);
    }
  }

  /** The punctuation bean.go:550 lets through. */
  predicate IsTagPunct(c: char) {
    c == '!' || c == '#' || c == '$' || c == '%' || c == '&' || c == '(' || c == ')' ||
    c == '*' || c == '+' || c == '-' || c == '.' || c == '/' || c == ':' || c == ';' ||
    c == '<' || c == '=' || c == '>' || c == '?' || c == '@' || c == '[' || c == ']' ||
    c == '^' || c == '_' || c == '{' || c == '|' || c == '}' || c == '~' || c == ' '
  }

  /** `unicode.IsLetter` and `unicode.IsDigit`, on the ASCII range. */
  predicate IsLetter(c: char) {
    ('a' <= c <= 'z') || ('A' <= c <= 'Z')
  }

  predicate IsDigit(c: char) {
    '0' <= c <= '9'
  }

  predicate IsTagChar(c: char) {
    IsTagPunct(c) || IsLetter(c) || IsDigit(c)
  }

  /** bean.go:544-559: a non-empty run of letters, digits and allowed punctuation. */
  predicate IsValidTag(s: string) {
    s != "" && AllTagChars(s)
  }

  /** The scan of bean.go:548-557 over the rest of the string. */
  predicate AllTagChars(s: string) {
    s == [] || (IsTagChar(s[0]) && AllTagChars(s[1..]))
  }

  /** bean.go:544-559 as the loop it is: reject the empty string, then stop at the
      first character that is neither allowed punctuation, a letter nor a digit. */
  method CheckValidTag(s: string) returns (ok: bool)
    ensures ok == IsValidTag(s)
  {
    if s == "" {
      return false;
    }
    var k := 0;
    while k < |s|
      invariant k <= |s|
      invariant AllTagChars(s) == AllTagChars(s[k..])
    {
      var c := s[k];
      assert s[k..][1..] == s[k + 1..];
      if !IsTagPunct(c) && !IsLetter(c) && !IsDigit(c) {
        return false;
      }
      k := k + 1;
    }
    return true;
  }

  lemma {:induction false} AllTagCharsSpec(s: string)
    ensures AllTagChars(s) <==> forall i :: 0 <= i < |s| ==> IsTagChar(s[i])
  {
    if s != [] {
      AllTagCharsSpec(s[1..]);
      assert forall i :: 1 <= i < |s| ==> s[i] == s[1..][i - 1];
    }
  }

  lemma ReservedAreNotTagChars(c: char)
    requires c == '"' || c == '\\' || c == ',' || c == '\''
    ensures !IsTagChar(c)
  {
  }

  /** A valid tag name never holds a quote, a backslash or a comma. */
  lemma ValidTagExcludesReserved(s: string)
    requires IsValidTag(s)
    ensures '"' !in s && '\\' !in s && ',' !in s && '\'' !in s
  {
    AllTagCharsSpec(s);
    forall i | 0 <= i < |s| ensures s[i] != '"' && s[i] != '\\' && s[i] != ',' && s[i] != '\'' {
      if s[i] == '"' || s[i] == '\\' || s[i] == ',' || s[i] == '\'' {
        ReservedAreNotTagChars(s[i]);
      }
    }
  }
}
