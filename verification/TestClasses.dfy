/** Which classes of a test module are test cases, by the names of their bases. */
module TestClasses {

  /** A class definition: its name and the last part of each base. */
  datatype ClassDef = ClassDef(name: string, bases: seq<string>)

  const SUFFIX := "TestCase"

  predicate EndsTestCase(base: string) {
    |base| >= |SUFFIX| && base[|base| - |SUFFIX|..] == SUFFIX
  }

  /** A base that makes a test case of its class, given the test cases known so far. */
  predicate Counts(base: string, known: set<string>) {
    EndsTestCase(base) || base in known
  }

  ghost predicate Derives(c: ClassDef, known: set<string>) {
    exists b :: b in c.bases && Counts(b, known)
  }

  /** Every class with a counting base is in the set. */
  ghost predicate Closed(classes: seq<ClassDef>, s: set<string>) {
    forall c :: c in classes && Derives(c, s) ==> c.name in s
  }

  ghost predicate IsLeast(classes: seq<ClassDef>, s: set<string>) {
    Closed(classes, s) && forall t :: Closed(classes, t) ==> s <= t
  }

  function Names(classes: seq<ClassDef>): set<string> {
    set c | c in classes :: c.name
  }

  /** Passes over the classes until a pass adds nothing; the names still missing bound the passes. */
  method TestcaseClasses(classes: seq<ClassDef>) returns (found: set<string>)
    ensures IsLeast(classes, found) && found <= Names(classes)
  {
    hide Counts;
    found := {};
    var changed := true;
    while changed
      invariant found <= Names(classes)
      invariant forall t :: Closed(classes, t) ==> found <= t
      invariant !changed ==> Closed(classes, found)
      decreases Names(classes) - found, changed
    {
      changed := false;
      ghost var before := found;
      for i := 0 to |classes|
        invariant before <= found <= Names(classes) && (changed <==> found != before)
        invariant forall t :: Closed(classes, t) ==> found <= t
        invariant !changed ==> forall k :: 0 <= k < i && Derives(classes[k], found) ==> classes[k].name in found
      {
        var c := classes[i];
        if c.name in found {
          continue;
        }
        var j := 0;
        while j < |c.bases|
          invariant 0 <= j <= |c.bases|
          invariant forall k :: 0 <= k < j ==> !Counts(c.bases[k], found)
        {
          if Counts(c.bases[j], found) {
            assert Derives(c, found);
            DerivesMore(classes, c, found);
            found := found + {c.name};
            changed := true;
            break;
          }
          j := j + 1;
        }
      }
    }
  }

  lemma DerivesMore(classes: seq<ClassDef>, c: ClassDef, s: set<string>)
    requires c in classes && Derives(c, s)
    ensures forall t :: Closed(classes, t) && s <= t ==> c.name in t
  {
    forall t | Closed(classes, t) && s <= t ensures c.name in t {
      var b :| b in c.bases && Counts(b, s);
      assert Counts(b, t);
    }
  }

  /** The order in which the classes are declared does not matter. */
  lemma OrderDoesNotMatter(a: seq<ClassDef>, b: seq<ClassDef>, s: set<string>, t: set<string>)
    requires (forall c :: c in a <==> c in b) && IsLeast(a, s) && IsLeast(b, t)
    ensures s == t
  {
    assert Closed(a, t) && Closed(b, s);
  }

  // ---------------------------------------------------------------- inheritance chains

  /** Some class of that name lists that base. */
  ghost predicate HasBase(classes: seq<ClassDef>, name: string, base: string) {
    exists c :: c in classes && c.name == name && base in c.bases
  }

  /** From a class down to a *TestCase base: each name is a base of the class before it. */
  ghost predicate Inherits(classes: seq<ClassDef>, chain: seq<string>) {
    && |chain| >= 2 && EndsTestCase(chain[|chain| - 1])
    && forall i, j :: 0 <= i && j == i + 1 && j < |chain| ==> HasBase(classes, chain[i], chain[j])
  }

  lemma {:induction false} ChainIsIn(classes: seq<ClassDef>, s: set<string>, chain: seq<string>)
    requires Closed(classes, s) && Inherits(classes, chain)
    ensures chain[0] in s
    decreases |chain|
  {
    assert HasBase(classes, chain[0], chain[1]);
    var c :| c in classes && c.name == chain[0] && chain[1] in c.bases;
    if |chain| > 2 {
      ChainIsIn(classes, s, chain[1..]);
    }
    assert Counts(chain[1], s);
  }

  /** A class is found exactly when some chain of bases leads from it to a name ending in TestCase; cyclic bases
      alone find nothing. */
  lemma FoundIffInherits(classes: seq<ClassDef>, found: set<string>, name: string)
    requires IsLeast(classes, found)
    ensures name in found <==> exists chain :: Inherits(classes, chain) && chain[0] == name
  {
    var s := set n | n in Names(classes) && exists chain :: Inherits(classes, chain) && chain[0] == n;
    forall c | c in classes && Derives(c, s) ensures c.name in s {
      var b :| b in c.bases && Counts(b, s);
      if EndsTestCase(b) {
        assert Inherits(classes, [c.name, b]);
      } else {
        var chain :| Inherits(classes, chain) && chain[0] == b;
        ChainExtends(classes, c, chain);
      }
    }
    assert Closed(classes, s);
    forall chain | Inherits(classes, chain) ensures chain[0] in found {
      ChainIsIn(classes, found, chain);
    }
  }

  lemma ChainExtends(classes: seq<ClassDef>, c: ClassDef, chain: seq<string>)
    requires c in classes && Inherits(classes, chain) && chain[0] in c.bases
    ensures Inherits(classes, [c.name] + chain)
  {
    var t := [c.name] + chain;
    assert HasBase(classes, t[0], t[1]);
    forall i, j | 0 <= i && j == i + 1 && j < |t| ensures HasBase(classes, t[i], t[j]) {
      if i > 0 {
        assert HasBase(classes, chain[i - 1], chain[j - 1]);
      }
    }
  }
}
