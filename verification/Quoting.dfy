/** Text in double quotes whose own quotes are doubled, read back. CSV cells and SQL names share it. */
module Quoting {
  import opened Options
  import opened Strings

  /** What was read and the text behind it. */
  datatype Read<T> = Read(value: T, rest: string)

  /** Reads on from behind the opening quote. */
  function ReadQuoted(s: string): (r: Option<Read<string>>)
    ensures r.Some? ==> |r.value.rest| < |s|
    decreases |s|
  {
    if s == "" then None
    else if s[0] != '"' then
      match ReadQuoted(s[1..])
      case Some(Read(text, rest)) => Some(Read([s[0]] + text, rest))
      case None => None
    else if |s| > 1 && s[1] == '"' then
      match ReadQuoted(s[2..])
      case Some(Read(text, rest)) => Some(Read("\"" + text, rest))
      case None => None
    else Some(Read("", s[1..]))
  }

  lemma {:induction false} QuotedReadsBack(text: string, s: string)
    requires s == "" || s[0] != '"'
    ensures ReadQuoted(Doubled(text) + "\"" + s) == Some(Read(text, s))
    decreases |text|
  {
    if text == "" {
      var t := "\"" + s;
      assert Doubled(text) + "\"" + s == t && t[1..] == s;
      assert |t| > 1 ==> t[1] == s[0];
    } else {
      QuotedReadsBack(text[1..], s);
      var rest := Doubled(text[1..]) + "\"" + s;
      if text[0] == '"' {
        assert Doubled(text) + "\"" + s == "\"\"" + rest;
        assert ("\"\"" + rest)[2..] == rest;
        assert "\"" + text[1..] == text;
      } else {
        assert Doubled(text) + "\"" + s == [text[0]] + rest;
        assert ([text[0]] + rest)[1..] == rest;
        assert [text[0]] + text[1..] == text;
      }
    }
  }
}
