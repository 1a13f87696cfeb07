/**
  The part of the `regex` crate that path patterns reach: a pattern built from
  literal characters, `.` (any one character except a line feed) and `.*` (any
  run of such characters). `Regex::is_match` is an unanchored search: it holds
  when the pattern matches some substring of the haystack.
*/
module RegexSubset {
  import opened Wrappers

  datatype Atom = Lit(c: char) | AnyChar | AnyRun

  /** The characters the `regex` crate treats as syntax outside a class. */
  predicate Meta(c: char) {
    c in "\\.+*?()|[]{}^$"
  }

  /**
    `Regex::new` on the sublanguage: `.*` is a run, `.` a single wildcard, other
    characters are literals. A `*` with nothing to repeat is an error, and any
    other regex syntax is outside what is modelled, so it is refused as well.
  */
  function Parse(re: string): (r: Option<seq<Atom>>)
    decreases |re|
  {
    if re == [] then Some([])
    else if re[0] == '.' && |re| > 1 && re[1] == '*' then
      match Parse(re[2..])
      case Some(rest) => Some([AnyRun] + rest)
      case None => None
    else if re[0] == '.' then
      match Parse(re[1..])
      case Some(rest) => Some([AnyChar] + rest)
      case None => None
    else if Meta(re[0]) then None
    else
      match Parse(re[1..])
      case Some(rest) => Some([Lit(re[0])] + rest)
      case None => None
  }

  /** The pattern text an atom sequence is written as: the reverse direction of `Parse`. */
  function Render(atoms: seq<Atom>): string {
    if atoms == [] then []
    else
      var head := match atoms[0]
        case Lit(c) => [c]
        case AnyChar => "."
        case AnyRun => ".*";
      head + Render(atoms[1..])
  }

  /** Every literal of the pattern is an ordinary character. */
  predicate PlainLits(atoms: seq<Atom>) {
    forall i :: 0 <= i < |atoms| ==> atoms[i].Lit? ==> !Meta(atoms[i].c)
  }

  /** What `Parse` accepts is exactly the rendering of its result, and its literals are ordinary. */
  lemma {:induction false} ParseRender(re: string)
    ensures Parse(re).Some? ==> Render(Parse(re).value) == re && PlainLits(Parse(re).value)
    decreases |re|
  {
    if re == [] {
    } else if re[0] == '.' && |re| > 1 && re[1] == '*' {
      ParseRender(re[2..]);
      if Parse(re[2..]).Some? {
        var rest := Parse(re[2..]).value;
        assert ([AnyRun] + rest)[1..] == rest;
        assert re == ".*" + re[2..];
      }
    } else if re[0] == '.' {
      ParseRender(re[1..]);
      if Parse(re[1..]).Some? {
        var rest := Parse(re[1..]).value;
        assert ([AnyChar] + rest)[1..] == rest;
        assert re == "." + re[1..];
      }
    } else if !Meta(re[0]) {
      ParseRender(re[1..]);
      if Parse(re[1..]).Some? {
        var rest := Parse(re[1..]).value;
        assert ([Lit(re[0])] + rest)[1..] == rest;
        assert re == [re[0]] + re[1..];
      }
    }
  }

  /** A rendering never starts with a `*`, so it cannot turn a preceding `.` into a run. */
  lemma RenderStartsPlain(atoms: seq<Atom>)
    requires PlainLits(atoms) && atoms != []
    ensures Render(atoms) != [] && Render(atoms)[0] != '*'
  {
    var head := match atoms[0] case Lit(c) => [c] case AnyChar => "." case AnyRun => ".*";
    assert Render(atoms) == head + Render(atoms[1..]);
    assert atoms[0].Lit? ==> !Meta(atoms[0].c);
  }

  /** Every atom sequence with ordinary literals is read back from its rendering. */
  lemma {:induction false} RenderParse(atoms: seq<Atom>)
    requires PlainLits(atoms)
    ensures Parse(Render(atoms)) == Some(atoms)
    decreases |atoms|
  {
    if atoms != [] {
      var rest := atoms[1..];
      assert PlainLits(rest) by {
        forall i | 0 <= i < |rest| ensures rest[i].Lit? ==> !Meta(rest[i].c) {
          assert rest[i] == atoms[i + 1];
        }
      }
      RenderParse(rest);
      var re := Render(atoms);
      assert [atoms[0]] + rest == atoms;
      match atoms[0]
      case Lit(c) =>
        assert !Meta(c) && c != '.' by { assert atoms[0].Lit?; }
        assert re == [c] + Render(rest);
        assert re[1..] == Render(rest);
      case AnyChar =>
        assert re == "." + Render(rest);
        assert re[1..] == Render(rest);
        if rest != [] {
          RenderStartsPlain(rest);
        }
      case AnyRun =>
        assert re == ".*" + Render(rest);
        assert re[2..] == Render(rest);
    }
  }

  /** The pattern matches a prefix of `s` (the search tried at one start position). */
  function MatchesPrefix(atoms: seq<Atom>, s: string): bool
    decreases |atoms|, |s|
  {
    if atoms == [] then true
    else match atoms[0]
      case Lit(c) => |s| > 0 && s[0] == c && MatchesPrefix(atoms[1..], s[1..])
      case AnyChar => |s| > 0 && s[0] != '\n' && MatchesPrefix(atoms[1..], s[1..])
      case AnyRun => MatchesPrefix(atoms[1..], s) || (|s| > 0 && s[0] != '\n' && MatchesPrefix(atoms, s[1..]))
  }

  ghost predicate NoLineFeed(w: string) {
    forall i :: 0 <= i < |w| ==> w[i] != '\n'
  }

  /** The language of a pattern, stated declaratively: `w` matches `atoms` exactly. */
  ghost predicate Denotes(atoms: seq<Atom>, w: string)
    decreases |atoms|
  {
    if atoms == [] then w == []
    else match atoms[0]
      case Lit(c) => |w| > 0 && w[0] == c && Denotes(atoms[1..], w[1..])
      case AnyChar => |w| > 0 && w[0] != '\n' && Denotes(atoms[1..], w[1..])
      case AnyRun => exists k :: 0 <= k <= |w| && NoLineFeed(w[..k]) && Denotes(atoms[1..], w[k..])
  }

  /** Some prefix of `s` is in the pattern's language. */
  ghost predicate DenotesPrefix(atoms: seq<Atom>, s: string) {
    exists j :: 0 <= j <= |s| && Denotes(atoms, s[..j])
  }

  /** The pattern occurs somewhere in `s`. */
  ghost predicate Occurs(atoms: seq<Atom>, s: string) {
    exists i, j :: 0 <= i <= j <= |s| && Denotes(atoms, s[i..j])
  }

  lemma PrefixCons(s: string, j: nat)
    requires j < |s|
    ensures s[..j + 1] == [s[0]] + s[1..][..j]
  {
  }

  lemma SliceOfTail(s: string, i: nat, j: nat)
    requires i <= j < |s|
    ensures s[1..][i..j] == s[i + 1..j + 1]
  {
  }

  /** A literal or a single wildcard consumes exactly the first character. */
  lemma DenotesCons(atoms: seq<Atom>, c: char, w: string)
    requires atoms != [] && !atoms[0].AnyRun?
    ensures Denotes(atoms, [c] + w) <==>
      (atoms[0] == Lit(c) || (atoms[0] == AnyChar && c != '\n')) && Denotes(atoms[1..], w)
  {
    assert ([c] + w)[1..] == w;
  }

  /** A run may take one more character in front. */
  lemma RunExtends(atoms: seq<Atom>, c: char, w: string)
    requires atoms != [] && atoms[0] == AnyRun && c != '\n' && Denotes(atoms, w)
    ensures Denotes(atoms, [c] + w)
  {
    var k :| 0 <= k <= |w| && NoLineFeed(w[..k]) && Denotes(atoms[1..], w[k..]);
    var cw := [c] + w;
    assert cw[..k + 1] == [c] + w[..k];
    assert cw[k + 1..] == w[k..];
    assert NoLineFeed(cw[..k + 1]);
  }

  /** A run either takes nothing, or takes the first character and is still a run. */
  lemma RunShrinks(atoms: seq<Atom>, w: string)
    requires atoms != [] && atoms[0] == AnyRun && Denotes(atoms, w)
    ensures Denotes(atoms[1..], w) || (|w| > 0 && w[0] != '\n' && Denotes(atoms, w[1..]))
  {
    var k :| 0 <= k <= |w| && NoLineFeed(w[..k]) && Denotes(atoms[1..], w[k..]);
    if k == 0 {
      assert w[k..] == w;
    } else {
      var t := w[1..];
      assert w[..k][0] == w[0];
      assert t[..k - 1] == w[..k][1..];
      assert t[k - 1..] == w[k..];
      assert NoLineFeed(t[..k - 1]);
    }
  }

  /** A successful prefix match consumes a prefix that is in the pattern's language. */
  lemma {:induction false} PrefixMatchWitness(atoms: seq<Atom>, s: string) returns (j: nat)
    requires MatchesPrefix(atoms, s)
    ensures j <= |s| && Denotes(atoms, s[..j])
    decreases |atoms|, |s|
  {
    if atoms == [] {
      return 0;
    }
    if atoms[0].AnyRun? && MatchesPrefix(atoms[1..], s) {
      j := PrefixMatchWitness(atoms[1..], s);
      assert s[..j][..0] == [] && s[..j][0..] == s[..j];
      return;
    }
    var j': nat;
    if atoms[0].AnyRun? {
      j' := PrefixMatchWitness(atoms, s[1..]);
      RunExtends(atoms, s[0], s[1..][..j']);
    } else {
      j' := PrefixMatchWitness(atoms[1..], s[1..]);
      DenotesCons(atoms, s[0], s[1..][..j']);
    }
    j := j' + 1;
    PrefixCons(s, j');
  }

  /** A prefix in the pattern's language makes the prefix matcher succeed. */
  lemma {:induction false} PrefixMatchFromWitness(atoms: seq<Atom>, s: string, j: nat)
    requires j <= |s| && Denotes(atoms, s[..j])
    ensures MatchesPrefix(atoms, s)
    decreases |atoms|, |s|
  {
    if atoms == [] {
      return;
    }
    if atoms[0].AnyRun? {
      RunShrinks(atoms, s[..j]);
      if Denotes(atoms[1..], s[..j]) {
        PrefixMatchFromWitness(atoms[1..], s, j);
        return;
      }
    }
    PrefixCons(s, j - 1);
    if atoms[0].AnyRun? {
      PrefixMatchFromWitness(atoms, s[1..], j - 1);
    } else {
      DenotesCons(atoms, s[0], s[1..][..j - 1]);
      PrefixMatchFromWitness(atoms[1..], s[1..], j - 1);
    }
  }

  lemma MatchesPrefixIff(atoms: seq<Atom>, s: string)
    ensures MatchesPrefix(atoms, s) <==> DenotesPrefix(atoms, s)
  {
    if MatchesPrefix(atoms, s) {
      var j := PrefixMatchWitness(atoms, s);
    }
    if DenotesPrefix(atoms, s) {
      var j :| 0 <= j <= |s| && Denotes(atoms, s[..j]);
      PrefixMatchFromWitness(atoms, s, j);
    }
  }

  /** An occurrence starts at the front, or somewhere in the tail. */
  lemma OccursStep(atoms: seq<Atom>, s: string)
    ensures Occurs(atoms, s) <==> DenotesPrefix(atoms, s) || (|s| > 0 && Occurs(atoms, s[1..]))
  {
    if Occurs(atoms, s) {
      var i, j :| 0 <= i <= j <= |s| && Denotes(atoms, s[i..j]);
      if i == 0 {
        assert s[..j] == s[i..j];
      } else {
        SliceOfTail(s, i - 1, j - 1);
      }
    }
    if DenotesPrefix(atoms, s) {
      var j :| 0 <= j <= |s| && Denotes(atoms, s[..j]);
      assert s[0..j] == s[..j];
    }
    if |s| > 0 && Occurs(atoms, s[1..]) {
      var i, j :| 0 <= i <= j <= |s[1..]| && Denotes(atoms, s[1..][i..j]);
      SliceOfTail(s, i, j);
    }
  }

  /**
    `Regex::is_match`: some start position has a match. It is sound and complete
    against the declarative reference: it holds exactly when the pattern denotes a
    substring of the haystack.
  */
  function IsMatch(atoms: seq<Atom>, s: string): (r: bool)
    ensures r <==> Occurs(atoms, s)
    decreases |s|
  {
    MatchesPrefixIff(atoms, s);
    OccursStep(atoms, s);
    MatchesPrefix(atoms, s) || (|s| > 0 && IsMatch(atoms, s[1..]))
  }

  /** The pattern that matches `w` literally. */
  function Lits(w: string): (atoms: seq<Atom>)
    ensures |atoms| == |w| && forall i :: 0 <= i < |w| ==> atoms[i] == Lit(w[i])
  {
    seq(|w|, i requires 0 <= i < |w| => Lit(w[i]))
  }

  /** Literal atoms consume exactly their own text. */
  lemma {:induction false} LitsThen(w: string, tail: seq<Atom>, rest: string)
    requires MatchesPrefix(tail, rest)
    ensures MatchesPrefix(Lits(w) + tail, w + rest)
    decreases |w|
  {
    if w == [] {
      assert Lits(w) + tail == tail && w + rest == rest;
    } else {
      LitsThen(w[1..], tail, rest);
      assert (Lits(w) + tail)[1..] == Lits(w[1..]) + tail;
      assert (w + rest)[1..] == w[1..] + rest;
    }
  }

  lemma RunMatchesAnything(s: string)
    ensures MatchesPrefix([AnyRun], s)
  {
    assert [AnyRun][1..] == [];
  }

  lemma AnyCharThen(c: char, tail: seq<Atom>, rest: string)
    requires c != '\n' && MatchesPrefix(tail, rest)
    ensures MatchesPrefix([AnyChar] + tail, [c] + rest)
  {
    assert ([AnyChar] + tail)[1..] == tail;
    assert ([c] + rest)[1..] == rest;
  }

  /** The search finds a match that starts after any prefix of the haystack. */
  lemma {:induction false} IsMatchAfter(atoms: seq<Atom>, before: string, s: string)
    requires MatchesPrefix(atoms, s)
    ensures IsMatch(atoms, before + s)
    decreases |before|
  {
    if before == [] {
      assert before + s == s;
    } else {
      IsMatchAfter(atoms, before[1..], s);
      assert (before + s)[1..] == before[1..] + s;
    }
  }

  /** A literal of the pattern must appear in whatever it matches. */
  lemma {:induction false} LiteralNeeded(atoms: seq<Atom>, s: string, c: char)
    requires MatchesPrefix(atoms, s) && Lit(c) in atoms
    ensures c in s
    decreases |atoms|, |s|
  {
    match atoms[0]
    case Lit(d) =>
      if d != c {
        assert Lit(c) in atoms[1..];
        LiteralNeeded(atoms[1..], s[1..], c);
      }
    case AnyChar =>
      assert Lit(c) in atoms[1..];
      LiteralNeeded(atoms[1..], s[1..], c);
    case AnyRun =>
      assert Lit(c) in atoms[1..];
      if MatchesPrefix(atoms[1..], s) {
        LiteralNeeded(atoms[1..], s, c);
      } else {
        LiteralNeeded(atoms, s[1..], c);
      }
  }

  lemma {:induction false} LiteralNeededInSearch(atoms: seq<Atom>, s: string, c: char)
    requires IsMatch(atoms, s) && Lit(c) in atoms
    ensures c in s
    decreases |s|
  {
    if MatchesPrefix(atoms, s) {
      LiteralNeeded(atoms, s, c);
    } else {
      LiteralNeededInSearch(atoms, s[1..], c);
    }
  }
}
