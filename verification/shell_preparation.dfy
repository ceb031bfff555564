/**
 * The shell-variable references of a command line (extractVars in
 * config/shellPreparation.go).
 *
 * A command such as `openssl req -subj "/CN=${target_commonName}"` names INI
 * values as `${<section>_<key>}`. `Names` is the leftmost-first scan of the
 * regular expression `\$\{([^}]+)\}`; `Dedup` keeps the first occurrence of
 * every name; `ToEnvVar` is the match of `^([-a-zA-Z0-9]+)_([-a-zA-Z0-9_]+)$`
 * on one name, with the empty entry for a name that does not have that form.
 */
module ShellPreparation {
  import opened Wrappers
  import Seqs

  /** One reference: the whole name, the INI section and the key within it. */
  datatype EnvVariable = EnvVariable(shellVariable: string, iniSection: string, iniVariable: string)

  /** The entry recorded for a reference that is not `<section>_<key>`. */
  const Unparsed := EnvVariable("", "", "")

  /** The characters of `[-a-zA-Z0-9]`. */
  predicate IsSectionChar(c: char)
  {
    c == '-' || ('a' <= c <= 'z') || ('A' <= c <= 'Z') || ('0' <= c <= '9')
  }

  /** The characters of `[-a-zA-Z0-9_]`. */
  predicate IsKeyChar(c: char)
  {
    IsSectionChar(c) || c == '_'
  }

  /** `[-a-zA-Z0-9]+` */
  predicate IsSection(s: string)
  {
    |s| > 0 && forall k :: 0 <= k < |s| ==> IsSectionChar(s[k])
  }

  /** `[-a-zA-Z0-9_]+` */
  predicate IsKey(s: string)
  {
    |s| > 0 && forall k :: 0 <= k < |s| ==> IsKeyChar(s[k])
  }

  /** `name` is `sec` and `key` joined by an underscore, each of the allowed characters. */
  predicate Splits(name: string, sec: string, key: string)
  {
    name == sec + "_" + key && IsSection(sec) && IsKey(key)
  }

  /** `${name}` stands in `s` at position `p`. */
  predicate OccursAt(s: string, p: nat, name: string)
  {
    p + |name| + 3 <= |s| && s[p] == '$' && s[p + 1] == '{' &&
    s[p + 2..p + 2 + |name|] == name && s[p + 2 + |name|] == '}'
  }

  /** The position of the first `}` in `s` at or after position `j`, if any. */
  function CloseAt(s: string, j: nat): (r: Option<nat>)
    ensures r.Some? ==> j <= r.value < |s| && s[r.value] == '}'
    ensures r.Some? ==> forall m :: j <= m < r.value ==> s[m] != '}'
    decreases |s| - j
  {
    if j >= |s| then None
    else if s[j] == '}' then Some(j)
    else CloseAt(s, j + 1)
  }

  /**
   * The names inside the matches of `\$\{([^}]+)\}` in `s`, scanning from
   * position `i`: at a `${` the name runs up to the first `}`; an empty name
   * or a missing `}` is no match there and the scan moves on by one.
   */
  function Names(s: string, i: nat): seq<string>
    decreases |s| - i
  {
    if i + 1 >= |s| then []
    else if s[i] == '$' && s[i + 1] == '{' then
      match CloseAt(s, i + 2)
      case Some(e) =>
        if e > i + 2 then [s[i + 2..e]] + Names(s, e + 1) else Names(s, i + 1)
      case None => Names(s, i + 1)
    else Names(s, i + 1)
  }

  /** The names of `ns` in the order of their first occurrence, each once. */
  function Dedup(ns: seq<string>): seq<string>
  {
    if ns == [] then []
    else
      var d := Dedup(ns[..|ns| - 1]);
      if ns[|ns| - 1] in ns[..|ns| - 1] then d else d + [ns[|ns| - 1]]
  }

  /** The FindStringSubmatch of `^([-a-zA-Z0-9]+)_([-a-zA-Z0-9_]+)$` on one name. */
  function ToEnvVar(name: string): EnvVariable
  {
    match Seqs.IndexOf(name, '_')
    case Some(p) =>
      if IsSection(name[..p]) && IsKey(name[p + 1..]) then EnvVariable(name, name[..p], name[p + 1..]) else Unparsed
    case None => Unparsed
  }

  /** The entries of `ns`, one per name and in the same order. */
  function Envs(ns: seq<string>): seq<EnvVariable>
  {
    if ns == [] then [] else Envs(ns[..|ns| - 1]) + [ToEnvVar(ns[|ns| - 1])]
  }

  /** What extractVars returns for `s`. */
  function ExtractedVars(s: string): seq<EnvVariable>
  {
    Envs(Dedup(Names(s, 0)))
  }

  /** extractVars: scan the matches once, remembering the names already seen. */
  method ExtractVars(s: string) returns (vars: seq<EnvVariable>)
    ensures vars == ExtractedVars(s)
  {
    var matches := Names(s, 0);
    var seen: set<string> := {};
    vars := [];
    for k := 0 to |matches|
      invariant forall x :: x in seen <==> x in matches[..k]
      invariant vars == Envs(Dedup(matches[..k]))
    {
      var name := matches[k];
      assert matches[..k + 1] == matches[..k] + [name];
      assert matches[..k + 1][..k] == matches[..k];
      if name !in seen {
        seen := seen + {name};
        vars := vars + [ToEnvVar(name)];
      }
    }
    assert matches[..|matches|] == matches;
  }

  // ---------------------------------------------------------------------
  // The scan of `${...}` references

  /** `name` is a possible match: non-empty, without `}`, and standing as `${name}` at or after position `i`. */
  ghost predicate FoundFrom(s: string, i: nat, name: string)
  {
    name != [] && '}' !in name && exists p: nat :: i <= p && OccursAt(s, p, name)
  }

  /** A name found from some position on is found from any earlier one. */
  lemma FoundEarlier(s: string, i: nat, j: nat, name: string)
    requires i <= j && FoundFrom(s, j, name)
    ensures FoundFrom(s, i, name)
  {
    var p: nat :| j <= p && OccursAt(s, p, name);
  }

  /** The first `}` from `j` on is at `e` when there is none between. */
  lemma {:induction false} CloseAtFirst(s: string, j: nat, e: nat)
    requires j <= e < |s| && s[e] == '}'
    requires forall m :: j <= m < e ==> s[m] != '}'
    ensures CloseAt(s, j) == Some(e)
    decreases e - j
  {
    if j < e {
      CloseAtFirst(s, j + 1, e);
    }
  }

  /** Every name found is non-empty, holds no `}` and stands as `${name}` in the text scanned. */
  lemma {:induction false} NamesOccur(s: string, i: nat)
    ensures forall k :: 0 <= k < |Names(s, i)| ==> FoundFrom(s, i, Names(s, i)[k])
    decreases |s| - i
  {
    if i + 1 >= |s| {
    } else if s[i] == '$' && s[i + 1] == '{' && CloseAt(s, i + 2).Some? && CloseAt(s, i + 2).value > i + 2 {
      var e := CloseAt(s, i + 2).value;
      var name := s[i + 2..e];
      assert FoundFrom(s, i, name) by {
        assert forall k :: 0 <= k < |name| ==> name[k] == s[i + 2 + k];
        assert OccursAt(s, i, name);
      }
      var rest := Names(s, e + 1);
      assert Names(s, i) == [name] + rest;
      NamesOccur(s, e + 1);
      forall k | 0 <= k < |Names(s, i)|
        ensures FoundFrom(s, i, Names(s, i)[k])
      {
        if k > 0 {
          assert Names(s, i)[k] == rest[k - 1];
          FoundEarlier(s, i, e + 1, rest[k - 1]);
        }
      }
    } else {
      assert Names(s, i) == Names(s, i + 1);
      NamesOccur(s, i + 1);
      forall k | 0 <= k < |Names(s, i)|
        ensures FoundFrom(s, i, Names(s, i)[k])
      {
        FoundEarlier(s, i, i + 1, Names(s, i)[k]);
      }
    }
  }

  /** A reference `${name}` at the scan position is found, and the scan continues after its `}`. */
  lemma NameRecognised(s: string, i: nat, name: string)
    requires OccursAt(s, i, name) && name != [] && '}' !in name
    ensures Names(s, i) == [name] + Names(s, i + |name| + 3)
  {
    var e := i + 2 + |name|;
    assert CloseAt(s, i + 2) == Some(e) by {
      forall m | i + 2 <= m < e
        ensures s[m] != '}'
      {
        assert s[m] == s[i + 2..e][m - i - 2];
      }
      CloseAtFirst(s, i + 2, e);
    }
  }

  /** An empty reference `${}` is not a match: the scan moves on by one character. */
  lemma EmptyReferenceSkipped(s: string, i: nat)
    requires i + 3 <= |s| && s[i..i + 3] == "${}"
    ensures Names(s, i) == Names(s, i + 1)
  {
    assert s[i] == '$' && s[i + 1] == '{' && s[i + 2] == '}' by {
      assert s[i..i + 3][0] == '$' && s[i..i + 3][1] == '{' && s[i..i + 3][2] == '}';
    }
    assert CloseAt(s, i + 2) == Some(i + 2);
  }

  /** Text without `${` from position `i` on holds no references. */
  lemma {:induction false} NoOpeningNoNames(s: string, i: nat)
    requires forall p :: i <= p < |s| - 1 ==> !(s[p] == '$' && s[p + 1] == '{')
    ensures Names(s, i) == []
    decreases |s| - i
  {
    if i + 1 < |s| {
      NoOpeningNoNames(s, i + 1);
    }
  }

  // ---------------------------------------------------------------------
  // First occurrences

  /** Deduplication neither loses nor invents a name. */
  lemma {:induction false} DedupSameElements(ns: seq<string>)
    ensures forall x :: x in Dedup(ns) <==> x in ns
  {
    if ns != [] {
      var init := ns[..|ns| - 1];
      DedupSameElements(init);
      assert ns == init + [ns[|ns| - 1]];
    }
  }

  /** Every name is kept at most once. */
  lemma {:induction false} DedupDistinct(ns: seq<string>)
    ensures forall i, j :: 0 <= i < j < |Dedup(ns)| ==> Dedup(ns)[i] != Dedup(ns)[j]
  {
    if ns != [] {
      var init := ns[..|ns| - 1];
      DedupDistinct(init);
      DedupSameElements(init);
    }
  }

  /** An element of a prefix is found first within that prefix. */
  lemma IndexOfExtend(a: seq<string>, x: string, y: string)
    requires y in a
    ensures Seqs.IndexOf(a + [x], y) == Seqs.IndexOf(a, y)
  {
    var p := Seqs.IndexOf(a, y).value;
    assert (a + [x])[..p] == a[..p];
    Seqs.IndexOfFirst(a + [x], y, p);
  }

  /** The names are kept in the order of their first occurrence. */
  lemma {:induction false} DedupFirstOrder(ns: seq<string>)
    ensures forall x :: x in Dedup(ns) ==> x in ns
    ensures forall i, j :: 0 <= i < j < |Dedup(ns)| ==>
              Seqs.IndexOf(ns, Dedup(ns)[i]).value < Seqs.IndexOf(ns, Dedup(ns)[j]).value
  {
    DedupSameElements(ns);
    if ns != [] {
      var init := ns[..|ns| - 1];
      var x := ns[|ns| - 1];
      assert ns == init + [x];
      DedupFirstOrder(init);
      var d := Dedup(init);
      DedupSameElements(init);
      forall y | y in d
        ensures Seqs.IndexOf(ns, y) == Seqs.IndexOf(init, y)
      {
        IndexOfExtend(init, x, y);
      }
      if x !in init {
        assert Seqs.IndexOf(ns, x).value == |init| by {
          assert x !in ns[..|init|];
        }
        forall i, j | 0 <= i < j < |Dedup(ns)|
          ensures Seqs.IndexOf(ns, Dedup(ns)[i]).value < Seqs.IndexOf(ns, Dedup(ns)[j]).value
        {
          assert Dedup(ns) == d + [x];
          assert Dedup(ns)[i] == d[i] && d[i] in d;
          if j < |d| {
            assert Dedup(ns)[j] == d[j] && d[j] in d;
          }
        }
      }
    }
  }

  // ---------------------------------------------------------------------
  // Section and key

  /** A parsed entry splits its name into section and key exactly as the pattern does. */
  lemma ToEnvVarParsed(name: string)
    ensures var v := ToEnvVar(name);
            v == Unparsed || (v.shellVariable == name && Splits(name, v.iniSection, v.iniVariable))
  {
    match Seqs.IndexOf(name, '_')
    case Some(p) =>
      assert name == name[..p] + "_" + name[p + 1..];
    case None =>
  }

  /** A name of the form `<section>_<key>` is parsed, and into that section and key. */
  lemma ToEnvVarSplits(name: string, sec: string, key: string)
    requires Splits(name, sec, key)
    ensures ToEnvVar(name) == EnvVariable(name, sec, key)
  {
    assert name[|sec|] == '_';
    assert name[..|sec|] == sec && name[|sec| + 1..] == key;
    assert '_' !in sec by {
      assert forall k :: 0 <= k < |sec| ==> sec[k] != '_';
    }
    Seqs.IndexOfFirst(name, '_', |sec|);
  }

  // ---------------------------------------------------------------------
  // extractVars as a whole

  lemma {:induction false} EnvsElements(ns: seq<string>)
    ensures |Envs(ns)| == |ns|
    ensures forall k :: 0 <= k < |ns| ==> Envs(ns)[k] == ToEnvVar(ns[k])
  {
    if ns != [] {
      EnvsElements(ns[..|ns| - 1]);
    }
  }

  /**
   * Every entry is either the unparsed entry or a reference `${<section>_<key>}`
   * standing in `s`; no two entries come from the same reference.
   */
  lemma ExtractedVarsSound(s: string)
    ensures forall v :: v in ExtractedVars(s) ==>
              v == Unparsed ||
              (Splits(v.shellVariable, v.iniSection, v.iniVariable) &&
               exists p: nat :: OccursAt(s, p, v.shellVariable))
    ensures forall i, j :: 0 <= i < j < |ExtractedVars(s)| && ExtractedVars(s)[i] != Unparsed ==>
              ExtractedVars(s)[i] != ExtractedVars(s)[j]
  {
    var ns := Names(s, 0);
    var d := Dedup(ns);
    NamesOccur(s, 0);
    DedupSameElements(ns);
    DedupDistinct(ns);
    EnvsElements(d);
    forall v | v in ExtractedVars(s)
      ensures v == Unparsed ||
              (Splits(v.shellVariable, v.iniSection, v.iniVariable) &&
               exists p: nat :: OccursAt(s, p, v.shellVariable))
    {
      var k :| 0 <= k < |d| && v == Envs(d)[k];
      ToEnvVarParsed(d[k]);
      assert d[k] in ns;
    }
    forall i, j | 0 <= i < j < |ExtractedVars(s)| && ExtractedVars(s)[i] != Unparsed
      ensures ExtractedVars(s)[i] != ExtractedVars(s)[j]
    {
      ToEnvVarParsed(d[i]);
    }
  }

  /** A command without `${` has no references. */
  lemma NoReferencesNoVars(s: string)
    requires forall p :: 0 <= p < |s| - 1 ==> !(s[p] == '$' && s[p + 1] == '{')
    ensures ExtractedVars(s) == []
  {
    NoOpeningNoNames(s, 0);
  }

  /** A command that is exactly one reference `${<section>_<key>}` yields that one entry. */
  lemma SingleReference(s: string, sec: string, key: string)
    requires Splits(sec + "_" + key, sec, key)
    requires s == "${" + sec + "_" + key + "}"
    ensures ExtractedVars(s) == [EnvVariable(sec + "_" + key, sec, key)]
  {
    var name := sec + "_" + key;
    assert '}' !in name by {
      assert forall k :: 0 <= k < |name| ==> name[k] != '}' by {
        forall k | 0 <= k < |name|
          ensures name[k] != '}'
        {
          if k < |sec| {
            assert name[k] == sec[k];
          } else if k > |sec| {
            assert name[k] == key[k - |sec| - 1];
          }
        }
      }
    }
    assert s[0..|name| + 3] == s;
    NameRecognised(s, 0, name);
    assert Names(s, 0) == [name];
    assert Dedup([name]) == [name] by { assert [name][..0] == []; }
    ToEnvVarSplits(name, sec, key);
    assert Envs([name]) == [ToEnvVar(name)] by { assert [name][..0] == []; }
  }
}
