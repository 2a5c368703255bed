/**
 Name normalisation used by the hyphenated-input resolver: lower-casing
 (ASCII only) and removal of every hyphen. A provided argument name is
 normalised by first removing its hyphens and then lower-casing what is
 left; a declared parameter name is only lower-cased.
 */
module Names {

  predicate IsAsciiUpper(c: char) {
    'A' <= c <= 'Z'
  }

  /** Lower-case one character; only 'A'..'Z' change. */
  function LowerChar(c: char): (r: char)
    ensures !IsAsciiUpper(r)
    ensures IsAsciiUpper(c) ==> 'a' <= r <= 'z' && r as int - 'a' as int == c as int - 'A' as int
    ensures IsAsciiUpper(c) || r == c
    ensures r == '-' <==> c == '-'
  {
    if IsAsciiUpper(c) then (c as int + ('a' as int - 'A' as int)) as char else c
  }

  /** Lower-case a whole name, character by character. */
  function Lower(s: string): (r: string)
    ensures |r| == |s|
    ensures forall i {:trigger r[i]} :: 0 <= i < |s| ==> r[i] == LowerChar(s[i])
  {
    if s == [] then [] else [LowerChar(s[0])] + Lower(s[1..])
  }

  /** Remove every '-' from a name, keeping the other characters in order. */
  function StripHyphens(s: string): (r: string)
    ensures '-' !in r
    ensures |r| <= |s|
  {
    if s == [] then []
    else
      assert s == [s[0]] + s[1..];
      if s[0] == '-' then StripHyphens(s[1..]) else [s[0]] + StripHyphens(s[1..])
  }

  /** The key a provided argument name is looked up under: hyphens removed, then lower-cased. */
  function Normalise(name: string): (r: string)
    ensures '-' !in r
    ensures forall i :: 0 <= i < |r| ==> !IsAsciiUpper(r[i])
    ensures |r| <= |name|
  {
    Lower(StripHyphens(name))
  }

  /** Hyphen removal keeps every other character, as often as it occurs. */
  lemma {:induction false} StripHyphensKeepsOthers(s: string)
    ensures forall c :: c != '-' ==> multiset(StripHyphens(s))[c] == multiset(s)[c]
    ensures multiset(StripHyphens(s))['-'] == 0
  {
    if s != [] {
      StripHyphensKeepsOthers(s[1..]);
      assert s == [s[0]] + s[1..];
    }
  }

  /** Lower-casing distributes over concatenation. */
  lemma {:induction false} LowerAppend(a: string, b: string)
    ensures Lower(a + b) == Lower(a) + Lower(b)
  {
    if a == [] {
      assert a + b == b;
    } else {
      assert (a + b)[1..] == a[1..] + b;
      LowerAppend(a[1..], b);
    }
  }

  /** Hyphen removal distributes over concatenation. */
  lemma {:induction false} StripHyphensAppend(a: string, b: string)
    ensures StripHyphens(a + b) == StripHyphens(a) + StripHyphens(b)
  {
    if a == [] {
      assert a + b == b;
    } else {
      assert (a + b)[1..] == a[1..] + b;
      StripHyphensAppend(a[1..], b);
    }
  }

  /** A name with no ASCII capital is its own lower-case form. */
  lemma LowerKeepsLowercase(s: string)
    requires forall i :: 0 <= i < |s| ==> !IsAsciiUpper(s[i])
    ensures Lower(s) == s
  {
  }

  /** Lower-casing twice is lower-casing once. */
  lemma LowerIdempotent(s: string)
    ensures Lower(Lower(s)) == Lower(s)
  {
  }

  /** Lower-casing neither creates nor removes hyphens, so the two steps commute. */
  lemma {:induction false} LowerStripCommute(s: string)
    ensures Lower(StripHyphens(s)) == StripHyphens(Lower(s))
  {
    if s != [] {
      LowerStripCommute(s[1..]);
      assert Lower(s) == [LowerChar(s[0])] + Lower(s[1..]);
      assert Lower(s)[1..] == Lower(s[1..]);
      if s[0] != '-' {
        LowerAppend([s[0]], StripHyphens(s[1..]));
      }
    }
  }

  /** A name with no hyphen in it (every PHP parameter name) normalises to its lower-case form. */
  lemma {:induction false} NormalisePlainName(name: string)
    requires '-' !in name
    ensures Normalise(name) == Lower(name)
  {
    if name != [] {
      assert '-' !in name[1..] by {
        assert forall i :: 0 <= i < |name[1..]| ==> name[1..][i] == name[i + 1];
      }
      NormalisePlainName(name[1..]);
      assert StripHyphens(name) == [name[0]] + StripHyphens(name[1..]);
      LowerAppend([name[0]], StripHyphens(name[1..]));
    }
  }

  /** Normalising an already normalised name changes nothing. */
  lemma NormaliseIdempotent(name: string)
    ensures Normalise(Normalise(name)) == Normalise(name)
  {
    NormalisePlainName(Normalise(name));
    LowerKeepsLowercase(Normalise(name));
  }

  /** Case does not matter: a name and its lower-case form normalise alike. */
  lemma NormaliseIgnoresCase(name: string)
    ensures Normalise(Lower(name)) == Normalise(name)
  {
    LowerStripCommute(name);
    LowerStripCommute(Lower(name));
    LowerIdempotent(name);
    LowerIdempotent(StripHyphens(name));
  }

  /** `c` and `d` are the same character, or an ASCII capital and its lower-case letter. */
  predicate CasePartners(c: char, d: char) {
    || c == d
    || (IsAsciiUpper(c) && d as int - c as int == 'a' as int - 'A' as int)
    || (IsAsciiUpper(d) && c as int - d as int == 'a' as int - 'A' as int)
  }

  /**
   Case does not matter, in general: two names that differ only in the case of
   ASCII letters have the same normal form.
   */
  lemma NormaliseUpToCase(s: string, t: string)
    requires |s| == |t|
    requires forall i :: 0 <= i < |s| ==> CasePartners(s[i], t[i])
    ensures Normalise(s) == Normalise(t)
  {
    assert Lower(s) == Lower(t) by {
      forall i | 0 <= i < |s|
        ensures Lower(s)[i] == Lower(t)[i]
      {
        assert CasePartners(s[i], t[i]);
      }
    }
    LowerStripCommute(s);
    LowerStripCommute(t);
  }

  /** Hyphens do not matter: inserting a '-' anywhere leaves the normal form unchanged. */
  lemma NormaliseIgnoresHyphen(a: string, b: string)
    ensures Normalise(a + "-" + b) == Normalise(a + b)
  {
    StripHyphensAppend(a + "-", b);
    StripHyphensAppend(a, "-");
    StripHyphensAppend(a, b);
    assert StripHyphens("-") == [];
  }

  /** The two declared spellings of the documented example lower-case alike. */
  lemma DryRunLowerCase()
    ensures Lower("dryRun") == "dryrun"
    ensures Lower("dryrun") == "dryrun"
  {
    assert Lower("un") == "un" && Lower("Run") == "run";
  }

  /** "dryrun" is its own normal form. */
  lemma NormaliseDryrun()
    ensures Normalise("dryrun") == "dryrun"
  {
  }

  /** "dryRun" normalises to "dryrun". */
  lemma NormaliseDryRunCamel()
    ensures Normalise("dryRun") == "dryrun"
  {
  }

  /** "dry-run" normalises to "dryrun". */
  lemma NormaliseDryRunHyphen()
    ensures Normalise("dry-run") == "dryrun"
  {
  }

  /** "DRY-RUN" normalises to "dryrun". */
  lemma NormaliseDryRunUpper()
    ensures Normalise("DRY-RUN") == "dryrun"
  {
  }

  /** "Dry-Run" normalises to "dryrun". */
  lemma NormaliseDryRunTitle()
    ensures Normalise("Dry-Run") == "dryrun"
  {
  }

  /**
   The documented spelling "dry-run" and its case variants share one normal form
   with "dryRun" and "dryrun", and it is the lower-case form of both declared
   spellings of the documented example.
   */
  lemma DryRunSpellings()
    ensures Normalise("dry-run") == Normalise("DRY-RUN") == Normalise("Dry-Run") == "dryrun"
    ensures Normalise("dryRun") == Normalise("dryrun") == "dryrun"
    ensures Lower("dryRun") == Lower("dryrun") == "dryrun"
  {
    DryRunLowerCase();
    NormaliseDryrun();
    NormaliseDryRunCamel();
    NormaliseDryRunHyphen();
    NormaliseDryRunUpper();
    NormaliseDryRunTitle();
  }

  /** "force" is already in normal form. */
  lemma ForceLiteral()
    ensures Lower("force") == "force" && Normalise("force") == "force"
  {
  }
}
