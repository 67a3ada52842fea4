/**
 * The token store of services/config_manager.py: an INI configuration
 * held in memory as section -> key -> value. Writing the file is recorded
 * as a ghost list of the snapshots written; reading the file at
 * construction becomes the constructor's argument.
 *
 * `ConfigParser()` comes with basic interpolation, which this module
 * models: setting a value with a `%` that is neither `%%` nor a
 * `%(name)s` reference raises ValueError, and reading a value expands
 * `%%` to `%` and `%(name)s` to the named key of the same section,
 * nested at most ten deep.
 */
module ConfigManager {
  import opened Wrappers
  import Strings

  type Section = map<string, string>
  type Sections = map<string, Section>

  const AuthSection := "Auth"
  const TokenKey := "token"

  /** How deeply references may nest before reading raises. */
  const MaxInterpolationDepth: nat := 10

  // ---------------------------------------------------------------- interpolation

  /** `optionxform`: lower-case the letters A-Z. */
  function Lower(s: string): (r: string)
    ensures |r| == |s|
    ensures forall i :: 0 <= i < |s| ==> !('A' <= r[i] <= 'Z')
    ensures forall i :: 0 <= i < |s| && 'A' <= s[i] <= 'Z' ==> r[i] as int == s[i] as int + 32
    ensures forall i :: 0 <= i < |s| && !('A' <= s[i] <= 'Z') ==> r[i] == s[i]
  {
    seq(|s|, i requires 0 <= i < |s| => if 'A' <= s[i] <= 'Z' then (s[i] as int + 32) as char else s[i])
  }

  /**
   * The length of a match of `%\(([^)]+)\)s` at the start of `s`: a
   * non-empty name without ')' between "%(" and ")s".
   */
  function ReferenceLength(s: string): (n: Option<nat>)
    ensures n.Some? ==> 5 <= n.value <= |s| && s[..2] == "%(" && s[n.value - 2..n.value] == ")s"
    ensures n.Some? ==> forall k :: 2 <= k < n.value - 2 ==> s[k] != ')'
  {
    if |s| >= 2 && s[0] == '%' && s[1] == '(' && ')' in s[2..] then
      var j := Strings.IndexOf(s[2..], ')') + 2;
      if j > 2 && j + 1 < |s| && s[j + 1] == 's' then Some(j + 2) else None
    else None
  }

  /** Every match of `%\(([^)]+)\)s` at the start of `s` is the one `ReferenceLength` finds. */
  lemma ReferenceLengthComplete(s: string, m: nat)
    requires 5 <= m <= |s| && s[..2] == "%(" && s[m - 2..m] == ")s"
    requires forall k :: 2 <= k < m - 2 ==> s[k] != ')'
    ensures ReferenceLength(s) == Some(m)
  {
    assert s[0] == '%' && s[1] == '(';
    assert s[2..][m - 4] == ')';
    var j := Strings.IndexOf(s[2..], ')') + 2;
    assert j <= m - 2 && s[j] == ')';
  }

  /** `value.replace('%%', '')`. */
  function DropEscapes(v: string): string
  {
    if |v| >= 2 && v[0] == '%' && v[1] == '%' then DropEscapes(v[2..])
    else if v == [] then []
    else [v[0]] + DropEscapes(v[1..])
  }

  /** `_KEYCRE.sub('', value)`: every reference removed, scanning left to right. */
  function DropReferences(v: string): string
  {
    if v == [] then []
    else match ReferenceLength(v)
      case Some(n) => DropReferences(v[n..])
      case None => [v[0]] + DropReferences(v[1..])
  }

  /** `before_set`: a value is accepted when no `%` is left once escapes and references are removed. */
  predicate AcceptedOnSet(v: string)
  {
    '%' !in DropReferences(DropEscapes(v))
  }

  function Prepend(p: string, r: Option<string>): Option<string>
  {
    if r.None? then None else Some(p + r.value)
  }

  /**
   * `before_get`: expand `rest` against the keys of its section. None is
   * any of the errors reading raises: a `%` followed by neither `%` nor a
   * well-formed reference, a reference to a missing key, or nesting deeper
   * than `MaxInterpolationDepth`.
   */
  function Interpolate(rest: string, vars: Section, depth: nat): Option<string>
    requires 1 <= depth <= MaxInterpolationDepth + 1
    decreases MaxInterpolationDepth + 1 - depth, |rest|
  {
    if depth > MaxInterpolationDepth then None
    else if rest == [] then Some([])
    else if rest[0] != '%' then Prepend([rest[0]], Interpolate(rest[1..], vars, depth))
    else if |rest| >= 2 && rest[1] == '%' then Prepend("%", Interpolate(rest[2..], vars, depth))
    else if |rest| >= 2 && rest[1] == '(' then
      match ReferenceLength(rest)
      case None => None
      case Some(n) =>
        var name := Lower(rest[2..n - 2]);
        if name !in vars then None
        else
          var v := vars[name];
          var expanded := if '%' in v then Interpolate(v, vars, depth + 1) else Some(v);
          if expanded.None? then None
          else Prepend(expanded.value, Interpolate(rest[n..], vars, depth))
    else None
  }

  /** Every `%` doubled: the way to store a text that must read back literally. */
  function Escape(t: string): (e: string)
    ensures '%' !in t ==> e == t
  {
    if t == [] then []
    else (if t[0] == '%' then "%%" else [t[0]]) + Escape(t[1..])
  }

  lemma {:induction false} EscapesDropped(t: string)
    ensures '%' !in DropEscapes(Escape(t))
    decreases |t|
  {
    if t != [] {
      EscapesDropped(t[1..]);
      var e := Escape(t);
      if t[0] == '%' {
        assert e == "%%" + Escape(t[1..]);
        assert e[2..] == Escape(t[1..]);
      } else {
        assert e == [t[0]] + Escape(t[1..]);
        assert e[1..] == Escape(t[1..]);
      }
    }
  }

  lemma {:induction false} NoPercentNoReferences(v: string)
    requires '%' !in v
    ensures DropReferences(v) == v
    decreases |v|
  {
    if v != [] {
      assert v[0] != '%';
      NoPercentNoReferences(v[1..]);
    }
  }

  /** Reading the escape of a non-empty text yields its first character, then the rest. */
  lemma EscapeStep(t: string, vars: Section, depth: nat)
    requires 1 <= depth <= MaxInterpolationDepth && t != []
    ensures Interpolate(Escape(t), vars, depth) == Prepend([t[0]], Interpolate(Escape(t[1..]), vars, depth))
  {
    var e := Escape(t);
    if t[0] == '%' {
      assert e == "%%" + Escape(t[1..]);
      assert e[0] == '%' && e[1] == '%' && e[2..] == Escape(t[1..]);
    } else {
      assert e == [t[0]] + Escape(t[1..]);
      assert e[0] != '%' && e[1..] == Escape(t[1..]);
    }
  }

  /** Reading an escaped text gives back the text, at any depth that does not raise. */
  lemma {:induction false} EscapeIsExpanded(t: string, vars: Section, depth: nat)
    requires 1 <= depth <= MaxInterpolationDepth
    ensures Interpolate(Escape(t), vars, depth) == Some(t)
    decreases |t|
  {
    if t != [] {
      EscapeIsExpanded(t[1..], vars, depth);
      EscapeStep(t, vars, depth);
      assert t == [t[0]] + t[1..];
    }
  }

  // ---------------------------------------------------------------- the token

  /** The raw token stored in `c`, if any. */
  function StoredToken(c: Sections): Option<string>
  {
    if AuthSection in c && TokenKey in c[AuthSection] then Some(c[AuthSection][TokenKey]) else None
  }

  /** What `get_token` returns, or that it raises an interpolation error. */
  datatype TokenRead = NoToken | Token(value: string) | InterpolationError

  function ReadToken(c: Sections): (r: TokenRead)
    ensures r.NoToken? <==> StoredToken(c).None?
  {
    if AuthSection in c && TokenKey in c[AuthSection] then
      match Interpolate(c[AuthSection][TokenKey], c[AuthSection], 1)
      case Some(v) => Token(v)
      case None => InterpolationError
    else NoToken
  }

  /** The first step of `save_token`: create an empty Auth section if there is none. */
  function WithAuth(c: Sections): Sections
  {
    if AuthSection in c then c else c[AuthSection := map[]]
  }

  /** `save_token` when the value is accepted: Auth/token set. */
  function WithToken(c: Sections, token: string): Sections
  {
    var d := WithAuth(c);
    d[AuthSection := d[AuthSection][TokenKey := token]]
  }

  /** `clear_token`: drop the whole Auth section. */
  function WithoutAuth(c: Sections): Sections
  {
    c - {AuthSection}
  }

  /**
   * Saving an escaped text is accepted and reads back as the text; in
   * particular a token without `%` is stored and read back unchanged.
   */
  lemma SavedTokenIsRead(c: Sections, t: string)
    ensures AcceptedOnSet(Escape(t))
    ensures ReadToken(WithToken(c, Escape(t))) == Token(t)
    ensures '%' !in t ==> AcceptedOnSet(t) && ReadToken(WithToken(c, t)) == Token(t)
  {
    EscapesDropped(t);
    NoPercentNoReferences(DropEscapes(Escape(t)));
    EscapeIsExpanded(t, WithToken(c, Escape(t))[AuthSection], 1);
  }

  /** A lone `%` is refused on save; a doubled one reads back single. */
  lemma PercentSigns(c: Sections)
    ensures !AcceptedOnSet("50%")
    ensures AcceptedOnSet("a%%b") && ReadToken(WithToken(c, "a%%b")) == Token("a%b")
  {
    assert DropEscapes("50%") == "50%" by {
      assert DropEscapes("%") == "%";
      assert DropEscapes("0%") == "0" + DropEscapes("%");
    }
    assert ReferenceLength("50%") == None;
    assert DropReferences("50%") == "5" + DropReferences("0%");
    assert DropReferences("0%") == "0" + DropReferences("%");
    assert Escape("a%b") == "a%%b" by {
      assert Escape("b") == "b";
      assert Escape("%b") == "%%" + Escape("b");
    }
    SavedTokenIsRead(c, "a%b");
  }

  /** `%(x)s` is one whole reference, so setting it is accepted. */
  lemma ReferenceIsAccepted()
    ensures ReferenceLength("%(x)s") == Some(5)
    ensures AcceptedOnSet("%(x)s")
  {
    var v := "%(x)s";
    assert Strings.IndexOf(v[2..], ')') == 1;
    assert DropEscapes(v) == v by {
      assert DropEscapes("s") == "s";
      assert DropEscapes(")s") == ")" + DropEscapes("s");
      assert DropEscapes("x)s") == "x" + DropEscapes(")s");
      assert DropEscapes("(x)s") == "(" + DropEscapes("x)s");
    }
    assert DropReferences(v) == [] by {
      assert v[5..] == [];
    }
  }

  /** Reading a value that starts with a reference to a key the section lacks raises. */
  lemma UnknownReferenceRaises(rest: string, vars: Section, depth: nat)
    requires 1 <= depth <= MaxInterpolationDepth
    requires ReferenceLength(rest).Some?
    requires Lower(rest[2..ReferenceLength(rest).value - 2]) !in vars
    ensures Interpolate(rest, vars, depth) == None
  {
    assert rest[0] == '%' && rest[1] == '(';
  }

  /** Reading `%(x)s` raises in any section without an `x` key. */
  lemma MissingKeyRaises(vars: Section)
    requires "x" !in vars
    ensures Interpolate("%(x)s", vars, 1) == None
  {
    var v := "%(x)s";
    ReferenceIsAccepted();
    assert v[2..3] == "x";
    assert Lower("x") == "x" by {
      assert Lower("x")[0] == 'x';
    }
    UnknownReferenceRaises(v, vars, 1);
  }

  /** A reference to a key that is not there is accepted on save but makes reading raise. */
  lemma MissingReferenceRaises(c: Sections)
    requires AuthSection !in c
    ensures AcceptedOnSet("%(x)s")
    ensures ReadToken(WithToken(c, "%(x)s")) == InterpolationError
  {
    ReferenceIsAccepted();
    var auth := WithToken(c, "%(x)s")[AuthSection];
    assert auth.Keys == {TokenKey};
    MissingKeyRaises(auth);
  }

  /** Saving touches only Auth/token: every other section and every other Auth key is kept. */
  lemma SaveChangesOnlyToken(c: Sections, token: string)
    ensures var d := WithToken(c, token);
      && d.Keys == c.Keys + {AuthSection}
      && (forall s :: s in c && s != AuthSection ==> d[s] == c[s])
      && (forall k :: AuthSection in c && k in c[AuthSection] && k != TokenKey ==>
            k in d[AuthSection] && d[AuthSection][k] == c[AuthSection][k])
      && d[AuthSection].Keys == (if AuthSection in c then c[AuthSection].Keys else {}) + {TokenKey}
  {
  }

  /** A refused save still leaves an Auth section behind, but the stored token is the old one. */
  lemma RefusedSaveKeepsToken(c: Sections)
    ensures AuthSection in WithAuth(c)
    ensures StoredToken(WithAuth(c)) == StoredToken(c)
    ensures forall s :: s in c ==> s in WithAuth(c) && WithAuth(c)[s] == c[s]
  {
  }

  /** After clearing, no token is found and no Auth section is left, other sections untouched. */
  lemma ClearedTokenIsGone(c: Sections)
    ensures StoredToken(WithoutAuth(c)) == None && ReadToken(WithoutAuth(c)) == NoToken
    ensures AuthSection !in WithoutAuth(c)
    ensures forall s :: s in c && s != AuthSection ==> s in WithoutAuth(c) && WithoutAuth(c)[s] == c[s]
  {
  }

  /** Clearing without an Auth section changes nothing, so clearing is idempotent. */
  lemma ClearIsIdempotent(c: Sections)
    ensures AuthSection !in c ==> WithoutAuth(c) == c
    ensures WithoutAuth(WithoutAuth(c)) == WithoutAuth(c)
  {
  }

  class ConfigManager {
    var config: Sections
    /** Every state written to the configuration file, in order. */
    ghost var written: seq<Sections>

    /** `__init__`: `initial` is what reading the file produced. */
    constructor (initial: Sections)
      ensures config == initial && written == []
    {
      config := initial;
      written := [];
    }

    /** `get_token`: the expanded token, none, or the interpolation error reading raises. */
    method GetToken() returns (token: TokenRead)
      ensures token.NoToken? <==> !(AuthSection in config && TokenKey in config[AuthSection])
      ensures token == ReadToken(config)
    {
      token := ReadToken(config);
    }

    /**
     * `save_token`. `accepted` is false when setting the value raises
     * ValueError; the Auth section has been created by then, and the file
     * is not written.
     */
    method SaveToken(token: string) returns (accepted: bool)
      modifies this
      ensures accepted == AcceptedOnSet(token)
      ensures accepted ==> config == WithToken(old(config), token) && written == old(written) + [config]
      ensures !accepted ==> config == WithAuth(old(config)) && written == old(written)
    {
      if AuthSection !in config {
        config := config[AuthSection := map[]];
      }
      if !AcceptedOnSet(token) {
        return false;
      }
      config := config[AuthSection := config[AuthSection][TokenKey := token]];
      WriteConfig();
      return true;
    }

    /** `clear_token`: writes the file only when there was an Auth section to remove. */
    method ClearToken()
      modifies this
      ensures config == WithoutAuth(old(config))
      ensures ReadToken(config) == NoToken
      ensures written == if AuthSection in old(config) then old(written) + [config] else old(written)
    {
      if AuthSection in config {
        config := config - {AuthSection};
        WriteConfig();
      }
    }

    /** `_write_config`: the file now holds the current configuration. */
    method WriteConfig()
      modifies this`written
      ensures written == old(written) + [config]
    {
      written := written + [config];
    }
  }
}
