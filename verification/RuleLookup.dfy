/** The dotted-prefix rule lookup of Security-55471/authd/engine.c. */
module RuleLookup {

  /** What the lookup settles on: a stored right, the stored default rule, or the built-in one. */
  datatype Found = Right(name: string) | StoredDefault | BuiltinDefault

  /** `p` is a prefix of `s` that ends in a dot. */
  predicate DottedPrefix(p: string, s: string) {
    p != [] && p <= s && p[|p| - 1] == '.'
  }

  /** The exact right, else the longest stored dotted prefix, else a default. */
  ghost predicate Correct(rights: set<string>, names: set<string>, s: string, r: Found) {
    match r
    case Right(name) =>
      && name in rights
      && (name == s || (s !in rights && DottedPrefix(name, s)))
      && (forall p :: p in rights && DottedPrefix(p, s) ==> name == s || |p| <= |name|)
    case StoredDefault => NothingStored(rights, s) && "" in names
    case BuiltinDefault => NothingStored(rights, s) && "" !in names
  }

  ghost predicate NothingStored(rights: set<string>, s: string) {
    s !in rights && forall p :: p in rights ==> !DottedPrefix(p, s)
  }

  /** strrchr(buf, '.'), or -1 */
  method LastDot(buf: string) returns (k: int)
    ensures -1 <= k < |buf|
    ensures k >= 0 ==> buf[k] == '.'
    ensures forall j :: k < j < |buf| ==> buf[j] != '.'
  {
    k := |buf| - 1;
    while k >= 0 && buf[k] != '.'
      invariant -1 <= k < |buf|
      invariant forall j :: k < j < |buf| ==> buf[j] != '.'
    {
      k := k - 1;
    }
  }

  /**
   _find_rule. `rights` are the stored names of type right and `names` all stored
   names. The buffer is the string up to its terminator; `at` is where the code's
   pointer stands, at the terminator to begin with.
   */
  method FindRule(rights: set<string>, names: set<string>, s: string) returns (r: Found)
    requires rights <= names
    ensures Correct(rights, names, s, r)
  {
    var buf, at := s, |s|;
    while true
      invariant buf <= s && 0 <= at <= |s|
      invariant if at == |s| then buf == s else |buf| == at + 1 && buf[at] == '.'
      invariant at != |s| ==> s !in rights
      invariant forall p :: p in rights && DottedPrefix(p, s) ==> |p| <= |buf|
      decreases at
    {
      if buf in rights {
        return Right(buf);
      }
      forall p | p in rights && DottedPrefix(p, s)
        ensures |p| < |buf|
      {
        assert p == s[..|p|] && buf == s[..|buf|];
      }
      if at < |buf| && buf[at] == '.' {
        buf := buf[..at];
      }
      var k := LastDot(buf);
      forall p | p in rights && DottedPrefix(p, s)
        ensures |p| <= k + 1
      {
        assert buf[|p| - 1] == '.';
      }
      if k < 0 {
        break;
      }
      at := k;
      buf := buf[..k + 1];
    }
    r := if "" in names then StoredDefault else BuiltinDefault;
  }

  /** The specification leaves no choice. */
  lemma CorrectUnique(rights: set<string>, names: set<string>, s: string, r: Found, r': Found)
    requires Correct(rights, names, s, r) && Correct(rights, names, s, r')
    ensures r == r'
  {
    if r.Right? && r'.Right? {
      assert DottedPrefix(r.name, s) ==> r.name == s[..|r.name|];
      assert DottedPrefix(r'.name, s) ==> r'.name == s[..|r'.name|];
    }
  }

  /** The longest prefix wins, a longer name is no prefix, and the default rule has the empty name. */
  lemma LookupExamples()
    ensures Correct({"a.", "a.b.", "a.b.c.d"}, {"a.", "a.b.", "a.b.c.d"}, "a.b.c", Right("a.b."))
    ensures Correct({"a.b", "a."}, {"a.b", "a."}, "a.b", Right("a.b"))
    ensures Correct({"a.b"}, {"", "a.b"}, "a.b.c", StoredDefault)
    ensures Correct({"a.b"}, {"a.b"}, "a.b.c", BuiltinDefault)
  {
    assert "a.b." <= "a.b.c" && "a." <= "a.b.c" && "a." <= "a.b";
    assert "a.b.c.d"[6] == 'd' && "a.b"[2] == 'b';
  }
}
