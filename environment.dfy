/**
 * Environments of saffron-core (`domain/environment.rs`): a named set of
 * variables, `{{name}}` template substitution, and the list of environments
 * with the name of the active one.
 */
module Environments {
  import opened Wrappers
  import opened Strings

  /** `{{key}}`, the placeholder `resolve_template` replaces by the value of `key`. */
  function Placeholder(key: string): (r: string)
    ensures |r| == |key| + 4 && r[0] == '{' && r[1] == '{'
  {
    "{{" + key + "}}"
  }

  /**
   * `resolve_template` with the keys visited in `order`, the iteration order
   * of the variables map: each key's placeholder is replaced, everywhere, by
   * its value, in the text the earlier keys left.
   */
  function Resolved(template: string, vars: map<string, string>, order: seq<string>): (r: string)
    requires forall i :: 0 <= i < |order| ==> order[i] in vars
    ensures forall c :: c in r ==> c in template || exists i :: 0 <= i < |order| && c in vars[order[i]]
  {
    if |order| == 0 then template
    else
      var k := order[|order| - 1];
      ReplaceChars(Resolved(template, vars, order[..|order| - 1]), Placeholder(k), vars[k]);
      Replace(Resolved(template, vars, order[..|order| - 1]), Placeholder(k), vars[k])
  }

  /** A template that holds no placeholder of a defined variable comes back unchanged. */
  lemma {:induction false} ResolvedUnchanged(template: string, vars: map<string, string>, order: seq<string>)
    requires forall i :: 0 <= i < |order| ==> order[i] in vars
    requires forall k :: k in vars ==> !Contains(template, Placeholder(k))
    ensures Resolved(template, vars, order) == template
  {
    if |order| > 0 {
      ResolvedUnchanged(template, vars, order[..|order| - 1]);
    }
  }

  /** No brace in `s`: it can neither hold nor break a placeholder. */
  predicate BraceFree(s: string) {
    '{' !in s && '}' !in s
  }

  /** A template read as literal text and `{{name}}` placeholders. */
  datatype Piece = Lit(text: string) | Var(key: string)

  /**
   * Literal text in which no `{{` can start: every `{` is followed by a char
   * that is not `{`. Single braces, as in a JSON body, are allowed.
   */
  predicate NoOpening(s: string) {
    forall i :: 0 <= i < |s| && s[i] == '{' ==> i + 1 < |s| && s[i + 1] != '{'
  }

  /** Brace-free names, and literal text in which no placeholder can start. */
  predicate PieceOk(p: Piece) {
    if p.Lit? then NoOpening(p.text) else BraceFree(p.key)
  }

  predicate WellFormed(pieces: seq<Piece>) {
    forall i :: 0 <= i < |pieces| ==> PieceOk(pieces[i])
  }

  /** The template text the pieces spell. */
  function Render(pieces: seq<Piece>): string {
    if |pieces| == 0 then ""
    else (if pieces[0].Lit? then pieces[0].text else Placeholder(pieces[0].key)) + Render(pieces[1..])
  }

  /** The intended result: defined variables filled in, undefined placeholders kept as they are. */
  function Fill(pieces: seq<Piece>, vars: map<string, string>): string {
    if |pieces| == 0 then ""
    else
      (match pieces[0]
       case Lit(s) => s
       case Var(k) => if k in vars then vars[k] else Placeholder(k)) + Fill(pieces[1..], vars)
  }

  /** The pieces once the variables in `done` have been substituted. */
  function Bind(pieces: seq<Piece>, vars: map<string, string>, done: set<string>): (r: seq<Piece>)
    ensures |r| == |pieces|
  {
    if |pieces| == 0 then []
    else
      [match pieces[0]
       case Lit(s) => Lit(s)
       case Var(k) => if k in done && k in vars then Lit(vars[k]) else Var(k)] + Bind(pieces[1..], vars, done)
  }

  /** Replacing the placeholder of `k` by a brace-free `v` in a well-formed template turns each `Var(k)` into `Lit(v)`. */
  lemma {:induction false} ReplaceRendered(pieces: seq<Piece>, vars: map<string, string>, done: set<string>, k: string)
    requires WellFormed(pieces) && k in vars && BraceFree(k) && BraceFree(vars[k])
    requires forall j :: j in vars ==> BraceFree(vars[j])
    ensures Replace(Render(Bind(pieces, vars, done)), Placeholder(k), vars[k]) == Render(Bind(pieces, vars, done + {k}))
  {
    if |pieces| > 0 {
      var rest := Render(Bind(pieces[1..], vars, done));
      assert WellFormed(pieces[1..]) by {
        forall i | 0 <= i < |pieces[1..]| ensures PieceOk(pieces[1..][i]) {
          assert pieces[1..][i] == pieces[i + 1];
        }
      }
      ReplaceRendered(pieces[1..], vars, done, k);
      var head := Bind(pieces, vars, done)[0];
      assert Bind(pieces, vars, done)[1..] == Bind(pieces[1..], vars, done);
      assert Bind(pieces, vars, done + {k})[1..] == Bind(pieces[1..], vars, done + {k});
      assert PieceOk(pieces[0]);
      if head.Lit? {
        assert NoOpening(head.text);
        ReplaceSkipLiteral(head.text, rest, Placeholder(k), vars[k]);
      } else if head.key == k {
        ReplaceHere(rest, Placeholder(k), vars[k]);
      } else {
        OtherPlaceholder(head.key, k, rest, vars[k]);
      }
    }
  }

  /** Literal text in which no `{{` starts passes through the replacement of a placeholder untouched. */
  lemma {:induction false} ReplaceSkipLiteral(w: string, rest: string, p: string, v: string)
    requires |p| >= 2 && p[0] == '{' && p[1] == '{' && NoOpening(w)
    ensures Replace(w + rest, p, v) == w + Replace(rest, p, v)
  {
    if |w| > 0 {
      var tail := w[1..] + rest;
      assert w + rest == [w[0]] + tail;
      assert !IsPrefix(p, [w[0]] + tail) by {
        if w[0] == '{' {
          assert ([w[0]] + tail)[1] == w[1];
        }
      }
      ReplaceNoMatchHere(w[0], tail, p, v);
      assert NoOpening(w[1..]) by {
        forall i | 0 <= i < |w[1..]| && w[1..][i] == '{' ensures i + 1 < |w[1..]| && w[1..][i + 1] != '{' {
          assert w[i + 1] == '{';
        }
      }
      ReplaceSkipLiteral(w[1..], rest, p, v);
      ConsAppend(w, Replace(rest, p, v));
    } else {
      assert w + rest == rest;
    }
  }

  /** The placeholder of another brace-free name is left alone. */
  lemma OtherPlaceholder(j: string, k: string, rest: string, v: string)
    requires BraceFree(j) && BraceFree(k) && j != k
    ensures Replace(Placeholder(j) + rest, Placeholder(k), v) == Placeholder(j) + Replace(rest, Placeholder(k), v)
  {
    var pk := Placeholder(k);
    var tail := j + "}}";
    PlaceholderSplit(j, rest);
    PlaceholderMismatch(j, k, rest);
    ReplaceNoMatchHere('{', ['{'] + (tail + rest), pk, v);
    ReplaceNoMatchHere('{', tail + rest, pk, v);
    ReplaceSkip(tail, rest, pk, v);
    PlaceholderSplit(j, Replace(rest, pk, v));
  }

  lemma PlaceholderSplit(j: string, rest: string)
    ensures Placeholder(j) + rest == ['{'] + (['{'] + ((j + "}}") + rest))
  {
  }

  /** `{{k}}` neither starts at the first nor at the second brace of `{{j}}`. */
  lemma PlaceholderMismatch(j: string, k: string, rest: string)
    requires BraceFree(j) && BraceFree(k) && j != k
    ensures !IsPrefix(Placeholder(k), ['{'] + (['{'] + ((j + "}}") + rest)))
    ensures '{' !in j + "}}"
    ensures !IsPrefix(Placeholder(k), ['{'] + ((j + "}}") + rest))
  {
    PrefixSameName(j, k, rest);
    var t := ['{'] + ((j + "}}") + rest);
    assert |j + "}}"| > 0 && (j + "}}")[0] != '{';
    assert t[1] == (j + "}}")[0];
  }

  /** A brace-free name's placeholder that starts `{{j}}...` is the placeholder of `j`. */
  lemma PrefixSameName(j: string, k: string, rest: string)
    requires BraceFree(j) && BraceFree(k)
    ensures IsPrefix(Placeholder(k), ['{'] + (['{'] + ((j + "}}") + rest))) ==> j == k
  {
    var pk := Placeholder(k);
    var s := ['{'] + (['{'] + ((j + "}}") + rest));
    PlaceholderSplit(j, rest);
    assert forall i :: 0 <= i < |j| ==> s[i + 2] == j[i];
    assert s[|j| + 2] == '}';
    assert |j| < |k| ==> pk[|j| + 2] == k[|j|];
    assert |j| > |k| ==> pk[|k| + 2] == '}';
    if IsPrefix(pk, s) && |j| == |k| {
      assert forall i :: 0 <= i < |j| ==> j[i] == s[i + 2] == pk[i + 2] == k[i];
    }
  }

  /**
   * `resolve_template` does what it is for: with brace-free names and
   * values, and literal text in which no `{{` starts, every placeholder of a
   * defined variable becomes its value and every other placeholder stays,
   * whatever order the map visits its keys in.
   */
  lemma ResolvedFills(pieces: seq<Piece>, vars: map<string, string>, order: seq<string>)
    requires WellFormed(pieces)
    requires forall k :: k in vars ==> BraceFree(k) && BraceFree(vars[k])
    requires Enumerates(order, vars.Keys)
    ensures Resolved(Render(pieces), vars, order) == Fill(pieces, vars)
  {
    BindNone(pieces, vars, {});
    ResolvedBinds(pieces, vars, order, |order|);
    assert order[..|order|] == order;
    assert (set k | k in order) == vars.Keys;
    BindAll(pieces, vars);
  }

  /** A JSON body template: its own braces stay, and the placeholder is filled in. */
  lemma JsonBodyTemplate(v: string)
    requires BraceFree(v)
    ensures Resolved("{\"user\":\"{{name}}\"}", map["name" := v], ["name"]) == "{\"user\":\"" + v + "\"}"
  {
    var pieces := [Lit("{\"user\":\""), Var("name"), Lit("\"}")];
    assert Render(pieces[2..]) == "\"}";
    assert Render(pieces[1..]) == "{{name}}\"}";
    assert Render(pieces) == "{\"user\":\"{{name}}\"}";
    assert PieceOk(pieces[0]);
    assert WellFormed(pieces);
    assert Fill(pieces[2..], map["name" := v]) == "\"}";
    ResolvedFills(pieces, map["name" := v], ["name"]);
  }

  /** After the first `n` keys, their placeholders are filled in and no other. */
  lemma {:induction false} ResolvedBinds(pieces: seq<Piece>, vars: map<string, string>, order: seq<string>, n: nat)
    requires WellFormed(pieces)
    requires forall k :: k in vars ==> BraceFree(k) && BraceFree(vars[k])
    requires forall i :: 0 <= i < |order| ==> order[i] in vars
    requires n <= |order|
    ensures Resolved(Render(pieces), vars, order[..n]) == Render(Bind(pieces, vars, set k | k in order[..n]))
  {
    if n == 0 {
      BindNone(pieces, vars, set k | k in order[..n]);
    } else {
      ResolvedBinds(pieces, vars, order, n - 1);
      assert order[..n] == order[..n - 1] + [order[n - 1]];
      assert order[..n][..n - 1] == order[..n - 1];
      var earlier := order[..n - 1];
      var done := set k | k in earlier;
      ReplaceRendered(pieces, vars, done, order[n - 1]);
      assert (set k | k in order[..n]) == done + {order[n - 1]};
    }
  }

  lemma {:induction false} BindNone(pieces: seq<Piece>, vars: map<string, string>, done: set<string>)
    requires forall k :: k in done ==> k !in vars
    ensures Bind(pieces, vars, done) == pieces
  {
    if |pieces| > 0 {
      BindNone(pieces[1..], vars, done);
      assert pieces == [pieces[0]] + pieces[1..];
    }
  }

  lemma {:induction false} BindAll(pieces: seq<Piece>, vars: map<string, string>)
    ensures Render(Bind(pieces, vars, vars.Keys)) == Fill(pieces, vars)
  {
    if |pieces| > 0 {
      BindAll(pieces[1..], vars);
      assert Bind(pieces, vars, vars.Keys)[1..] == Bind(pieces[1..], vars, vars.Keys);
    }
  }

  /** Every name and value of `vars` is brace-free. */
  predicate AllBraceFree(vars: map<string, string>) {
    forall k :: k in vars ==> BraceFree(k) && BraceFree(vars[k])
  }

  /** `Environment`: a name and its variables, updated in place. */
  class Environment {
    var name: string
    var variables: map<string, string>

    /** `Environment::new`: no variables yet. */
    constructor(name: string)
      ensures this.name == name && variables == map[]
    {
      this.name := name;
      variables := map[];
    }

    /** `set`: defines or redefines `key`, leaving every other variable as it was. */
    method Set(key: string, value: string)
      modifies this
      ensures name == old(name)
      ensures variables == old(variables)[key := value]
      ensures Get(key) == Some(value)
      ensures forall k :: k != key ==> Get(k) == old(Get(k))
    {
      variables := variables[key := value];
    }

    /** `get`: the value of `key`, if it is defined. */
    function Get(key: string): (r: Option<string>)
      reads this
      ensures r.Some? <==> key in variables
      ensures r.Some? ==> r.value == variables[key]
    {
      if key in variables then Some(variables[key]) else None
    }

    /** `remove`: undefines `key` and hands back the value it had. */
    method Remove(key: string) returns (r: Option<string>)
      modifies this
      ensures r == old(Get(key))
      ensures name == old(name)
      ensures variables == old(variables) - {key}
      ensures !Contains(key)
      ensures forall k :: k != key ==> Get(k) == old(Get(k))
    {
      r := Get(key);
      variables := variables - {key};
    }

    /** `contains`: whether `key` is defined. */
    function Contains(key: string): (r: bool)
      reads this
      ensures r <==> Get(key).Some?
    {
      key in variables
    }

    /**
     * `resolve_template`: one `replace` per variable, visiting the keys in
     * `order`, the iteration order of the map. When names and values are
     * brace-free, the result is the template with its defined placeholders
     * filled in, whatever that order is, for any reading of the template
     * whose literal text starts no `{{`.
     */
    method ResolveTemplate(template: string, order: seq<string>) returns (r: string)
      requires Enumerates(order, variables.Keys)
      ensures r == Resolved(template, variables, order)
      ensures (forall k :: k in variables ==> !Strings.Contains(template, Placeholder(k))) ==> r == template
      ensures AllBraceFree(variables) ==>
        forall pieces :: WellFormed(pieces) && Render(pieces) == template ==> r == Fill(pieces, variables)
    {
      r := template;
      for n := 0 to |order|
        invariant r == Resolved(template, variables, order[..n])
      {
        var key := order[n];
        assert order[..n + 1][..n] == order[..n];
        r := Replace(r, Placeholder(key), variables[key]);
      }
      assert order[..|order|] == order;
      if forall k :: k in variables ==> !Strings.Contains(template, Placeholder(k)) {
        ResolvedUnchanged(template, variables, order);
      }
      forall pieces | WellFormed(pieces) && Render(pieces) == template && AllBraceFree(variables)
        ensures r == Fill(pieces, variables)
      {
        ResolvedFills(pieces, variables, order);
      }
    }

    /** `resolve_request_url`: the url resolved as a template. */
    method ResolveRequestUrl(url: string, order: seq<string>) returns (r: string)
      requires Enumerates(order, variables.Keys)
      ensures r == Resolved(url, variables, order)
    {
      r := ResolveTemplate(url, order);
    }

    /** `resolve_header_value`: the header value resolved as a template. */
    method ResolveHeaderValue(value: string, order: seq<string>) returns (r: string)
      requires Enumerates(order, variables.Keys)
      ensures r == Resolved(value, variables, order)
    {
      r := ResolveTemplate(value, order);
    }
  }

  /** The position of the first environment called `name`, as `iter().position` finds it. */
  function FirstNamed(envs: seq<Environment>, name: string): (r: Option<nat>)
    reads envs
    ensures r.Some? ==> r.value < |envs| && envs[r.value].name == name
    ensures r.Some? ==> forall i :: 0 <= i < r.value ==> envs[i].name != name
    ensures r.None? <==> forall i :: 0 <= i < |envs| ==> envs[i].name != name
  {
    if |envs| == 0 then None
    else if envs[|envs| - 1].name != name then FirstNamed(envs[..|envs| - 1], name)
    else
      match FirstNamed(envs[..|envs| - 1], name)
      case Some(i) => Some(i)
      case None => Some(|envs| - 1)
  }

  /** Adding an environment at the end never hides an earlier one of the same name. */
  lemma FirstNamedAppend(envs: seq<Environment>, env: Environment, name: string)
    ensures FirstNamed(envs + [env], name) ==
      if FirstNamed(envs, name).Some? then FirstNamed(envs, name)
      else if env.name == name then Some(|envs|)
      else None
  {
    assert (envs + [env])[..|envs|] == envs;
  }

  /** `EnvironmentSet`: the environments in the order they were added, and the name of the active one. */
  class EnvironmentSet {
    var active: Option<string>
    var environments: seq<Environment>

    /** `EnvironmentSet::new` and `Default`: nothing active, no environments. */
    constructor()
      ensures active == None && environments == []
    {
      active := None;
      environments := [];
    }

    /** `add`: appends the environment. */
    method Add(env: Environment)
      modifies this
      ensures environments == old(environments) + [env]
      ensures active == old(active)
    {
      environments := environments + [env];
    }

    /**
     * `get` (and `get_mut`, the same lookup handing out the environment to
     * update): the first environment called `name`.
     */
    function Get(name: string): (r: Option<Environment>)
      reads this, environments
      ensures r.None? <==> FirstNamed(environments, name).None?
      ensures r.Some? ==> r.value == environments[FirstNamed(environments, name).value] && r.value.name == name
    {
      match FirstNamed(environments, name)
      case None => None
      case Some(i) => Some(environments[i])
    }

    /**
     * `remove`: takes out the first environment called `name`, if any,
     * keeping the others in order; the active name is left as it is.
     */
    method Remove(name: string) returns (r: Option<Environment>)
      modifies this
      ensures r == old(Get(name))
      ensures active == old(active)
      ensures old(FirstNamed(environments, name)).None? ==> environments == old(environments)
      ensures old(FirstNamed(environments, name)).Some? ==>
        var i := old(FirstNamed(environments, name)).value;
        environments == old(environments[..i] + environments[i + 1..])
    {
      r := Get(name);
      match FirstNamed(environments, name)
      case None =>
      case Some(i) =>
        environments := environments[..i] + environments[i + 1..];
    }

    /** `set_active`: records the name, whether or not an environment has it. */
    method SetActive(name: string)
      modifies this
      ensures active == Some(name)
      ensures environments == old(environments)
    {
      active := Some(name);
    }

    /**
     * `get_active` (and `get_active_mut`): the first environment whose name is
     * the active one; nothing when no name is active or none matches.
     */
    function GetActive(): (r: Option<Environment>)
      reads this, environments
      ensures active.None? ==> r.None?
      ensures active.Some? ==> r == Get(active.value)
      ensures r.Some? ==> active == Some(r.value.name) && r.value in environments
      ensures active.Some? && (exists i :: 0 <= i < |environments| && environments[i].name == active.value) ==> r.Some?
    {
      match active
      case None => None
      case Some(name) => Get(name)
    }
  }
}
