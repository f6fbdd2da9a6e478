/**
 * The argument parsers of the command line (saffron-cli `cli.rs`): a header
 * given as `Key:Value`, a form field and an environment variable given as
 * `key=value`. Each splits at the first separator and fails, with a message
 * quoting the argument, when there is none.
 */
module Cli {
  import opened Wrappers
  import opened Strings

  /** `s.find(sep)` and the text either side of it: `s[..pos]`, `s[pos + 1..]`. */
  function SplitOnce(s: string, sep: char): (r: Option<(string, string)>)
    ensures r.None? <==> sep !in s
    ensures r.Some? ==> r.value.0 + [sep] + r.value.1 == s && sep !in r.value.0
  {
    match IndexOf(s, sep)
    case None => None
    case Some(pos) =>
      assert s[..pos] + [sep] + s[pos + 1..] == s;
      Some((s[..pos], s[pos + 1..]))
  }

  /** A separator-free key followed by the separator splits back into that key and the rest. */
  lemma SplitOnceJoin(key: string, sep: char, value: string)
    requires sep !in key
    ensures SplitOnce(key + [sep] + value, sep) == Some((key, value))
  {
    var s := key + [sep] + value;
    assert s[|key|] == sep && s[..|key|] == key;
    assert IndexOf(s, sep) == Some(|key|);
    assert s[|key| + 1..] == value;
  }

  /** The message for a header argument without `:`; it quotes the argument whole. */
  function HeaderFormatError(s: string): (r: string)
    ensures |r| == |s| + 47 && r[24..24 + |s|] == s
  {
    "Invalid header format: '" + s + "'. Expected 'Key:Value'"
  }

  /** The message for a form argument without `=`; it quotes the argument whole. */
  function FormFormatError(s: string): (r: string)
    ensures |r| == |s| + 50 && r[27..27 + |s|] == s
  {
    "Invalid form data format: '" + s + "'. Expected 'key=value'"
  }

  /** The message for a variable argument without `=`; it quotes the argument whole. */
  function VariableFormatError(s: string): (r: string)
    ensures |r| == |s| + 49 && r[26..26 + |s|] == s
  {
    "Invalid variable format: '" + s + "'. Expected 'key=value'"
  }

  /** Distinct arguments give distinct messages, and the three messages never coincide. */
  lemma FormatErrorsDistinct(s: string, t: string)
    ensures HeaderFormatError(s) == HeaderFormatError(t) ==> s == t
    ensures FormFormatError(s) == FormFormatError(t) ==> s == t
    ensures VariableFormatError(s) == VariableFormatError(t) ==> s == t
    ensures HeaderFormatError(s) != FormFormatError(t) && FormFormatError(s) != VariableFormatError(t)
    ensures HeaderFormatError(s) != VariableFormatError(t)
  {
    assert HeaderFormatError(s)[8] == 'h' && FormFormatError(t)[8] == 'f' && VariableFormatError(t)[8] == 'v';
    assert HeaderFormatError(t)[8] == 'h' && FormFormatError(s)[8] == 'f';
  }

  /**
   * `parse_header`: the trimmed text before the first `:` and the trimmed
   * text after it; an argument without `:` is refused.
   */
  function ParseHeader(s: string): (r: Result<(string, string), string>)
    ensures r.Failure? <==> ':' !in s
    ensures r.Failure? ==> r.error == HeaderFormatError(s)
    ensures r.Success? ==> exists name, value ::
      name + ":" + value == s && ':' !in name && r.value == (Trim(name), Trim(value))
    ensures r.Success? ==> ':' !in r.value.0
  {
    match SplitOnce(s, ':')
    case None => Failure(HeaderFormatError(s))
    case Some((name, value)) =>
      TrimKeepsOut(name, ':');
      Success((Trim(name), Trim(value)))
  }

  /** A trimmed name without `:` and a trimmed value come back from `name:value`. */
  lemma ParseHeaderJoin(name: string, value: string)
    requires ':' !in name
    requires |name| > 0 ==> !IsWhitespace(name[0]) && !IsWhitespace(name[|name| - 1])
    requires |value| > 0 ==> !IsWhitespace(value[0]) && !IsWhitespace(value[|value| - 1])
    ensures ParseHeader(name + ":" + value) == Success((name, value))
  {
    SplitOnceJoin(name, ':', value);
    TrimTrimmed(name);
    TrimTrimmed(value);
  }

  /** `parse_form`: the text before the first `=` and the text after it, untrimmed. */
  function ParseForm(s: string): (r: Result<(string, string), string>)
    ensures r.Failure? <==> '=' !in s
    ensures r.Failure? ==> r.error == FormFormatError(s)
    ensures r.Success? ==> r.value.0 + "=" + r.value.1 == s && '=' !in r.value.0
  {
    match SplitOnce(s, '=')
    case None => Failure(FormFormatError(s))
    case Some(pair) => Success(pair)
  }

  /** `parse_env_var`: split like a form field, with its own message. */
  function ParseEnvVar(s: string): (r: Result<(string, string), string>)
    ensures r.Failure? <==> '=' !in s
    ensures r.Failure? ==> r.error == VariableFormatError(s)
    ensures r.Success? ==> r.value.0 + "=" + r.value.1 == s && '=' !in r.value.0
  {
    match SplitOnce(s, '=')
    case None => Failure(VariableFormatError(s))
    case Some(pair) => Success(pair)
  }

  /** A key without `=` and any value (which may hold `=`) come back from `key=value`. */
  lemma ParseKeyValueJoin(key: string, value: string)
    requires '=' !in key
    ensures ParseForm(key + "=" + value) == Success((key, value))
    ensures ParseEnvVar(key + "=" + value) == Success((key, value))
  {
    SplitOnceJoin(key, '=', value);
  }
}
