/** `abbrevAuthors` of bibtex/bibtex.go:44-54. */
module Authors {
  import opened GoStrings

  /** The separator of a BibTeX name list. */
  const AndSep := " and "

  /**
   * Splits the list on " and " and rejoins it for display. A list without
   * the separator comes back unchanged.
   */
  function AbbrevAuthors(authors: string): (r: string)
    ensures IndexOf(authors, AndSep) < 0 ==> r == authors
  {
    var sl := Split(authors, AndSep);
    if |sl| == 1 then authors
    else if |sl| == 2 then sl[0] + " & " + sl[1]
    else
      var last := |sl| - 1;
      Join(sl[..last - 1], ", ") + " & " + sl[last]
  }

  /**
   * The result for a list of names, each free of the separator: one name is
   * kept as is, two become `a & b`, and from three on the first k-2 names are
   * joined with ", ", followed by " & " and the last name; the next-to-last
   * name is dropped.
   */
  lemma AbbrevNames(names: seq<string>)
    requires Pieces(names, AndSep)
    ensures |names| == 1 ==> AbbrevAuthors(Join(names, AndSep)) == names[0]
    ensures |names| == 2 ==> AbbrevAuthors(Join(names, AndSep)) == names[0] + " & " + names[1]
    ensures |names| >= 3 ==>
      AbbrevAuthors(Join(names, AndSep)) == Join(names[..|names| - 2], ", ") + " & " + names[|names| - 1]
  {
    var s := Join(names, AndSep);
    SplitJoin(names, AndSep);
    assert Split(s, AndSep) == names;
    if |names| == 1 {
      assert AbbrevAuthors(s) == s == names[0];
    } else if |names| == 2 {
      assert AbbrevAuthors(s) == names[0] + " & " + names[1];
    } else {
      assert AbbrevAuthors(s) == Join(names[..|names| - 2], ", ") + " & " + names[|names| - 1];
    }
  }

  /**
   * A name without the letter `d` is a piece of a name list: it cannot contain
   * " and " nor end in " and", so the separator after it is its first occurrence.
   */
  lemma NamePiece(name: string)
    requires 'd' !in name
    ensures IndexOf(name, AndSep) < 0
    ensures IndexOf(name + AndSep, AndSep) == |name|
  {
    NoLetterD(name);
    NoEarlierSep(name);
    SepAfter(name);
    IndexOfUnique(name + AndSep, AndSep, |name|);
  }

  lemma NoEarlierSep(name: string)
    requires 'd' !in name
    ensures forall j :: 0 <= j < |name| ==> !OccursAt(name + AndSep, AndSep, j)
  {
    var t := name + AndSep;
    forall j | 0 <= j < |name| ensures !OccursAt(t, AndSep, j) {
      if j + 3 < |name| {
        assert t[j + 3] == name[j + 3];
      } else {
        assert t[j + 3] == AndSep[j + 3 - |name|];
      }
      assert j + 5 <= |t| ==> t[j..j + 5][3] == t[j + 3];
    }
  }

  lemma SepAfter(name: string)
    ensures OccursAt(name + AndSep, AndSep, |name|)
  {
    assert (name + AndSep)[|name|..|name| + 5] == AndSep;
  }

  /** " and " holds a `d` at offset 3, so it occurs nowhere in a text without one. */
  lemma NoLetterD(s: string)
    requires 'd' !in s
    ensures IndexOf(s, AndSep) < 0
  {
    forall j | 0 <= j ensures !OccursAt(s, AndSep, j) {
      assert j + 5 <= |s| ==> s[j..j + 5][3] == s[j + 3];
    }
    IndexOfSpec(s, AndSep);
  }

  /** A single name (here: one without the letter `d`) is returned unchanged. */
  lemma AbbrevOneName(a: string)
    requires 'd' !in a
    ensures AbbrevAuthors(a) == a
  {
    NoLetterD(a);
  }

  /** Two names are joined with " & ": "Alice Smith and Bob Jones" becomes "Alice Smith & Bob Jones". */
  lemma AbbrevTwoNames(a: string, b: string)
    requires 'd' !in a && 'd' !in b
    ensures AbbrevAuthors(a + " and " + b) == a + " & " + b
  {
    var two := [a, b];
    NamePiece(a);
    NamePiece(b);
    AbbrevNames(two);
    assert Join(two, AndSep) == a + " and " + b;
  }

  /** Of four names the third is lost: "A and B and C and D" becomes "A, B & D". */
  lemma AbbrevFourNames(a: string, b: string, c: string, d: string)
    requires 'd' !in a && 'd' !in b && 'd' !in c && 'd' !in d
    ensures AbbrevAuthors(a + " and " + b + " and " + c + " and " + d) == a + ", " + b + " & " + d
  {
    FourPieces(a, b, c, d);
    JoinFour(a, b, c, d);
    AbbrevFour(a, b, c, d);
  }

  lemma FourPieces(a: string, b: string, c: string, d: string)
    requires 'd' !in a && 'd' !in b && 'd' !in c && 'd' !in d
    ensures Pieces([a, b, c, d], AndSep)
  {
    var four := [a, b, c, d];
    NamePiece(a);
    NamePiece(b);
    NamePiece(c);
    NamePiece(d);
    forall k | 0 <= k < 3 ensures IndexOf(four[k] + AndSep, AndSep) == |four[k]| {
      if k == 0 { } else if k == 1 { } else { }
    }
  }

  lemma JoinFour(a: string, b: string, c: string, d: string)
    ensures Join([a, b, c, d], AndSep) == a + " and " + b + " and " + c + " and " + d
  {
    var four := [a, b, c, d];
    assert four[1..] == [b, c, d] && four[1..][1..] == [c, d] && four[1..][1..][1..] == [d];
    assert Join([c, d], AndSep) == c + AndSep + d;
    assert Join([b, c, d], AndSep) == b + AndSep + (c + AndSep + d);
  }

  lemma AbbrevFour(a: string, b: string, c: string, d: string)
    requires Pieces([a, b, c, d], AndSep)
    ensures AbbrevAuthors(Join([a, b, c, d], AndSep)) == a + ", " + b + " & " + d
  {
    var four := [a, b, c, d];
    AbbrevNames(four);
    assert four[..2] == [a, b] && [a, b][1..] == [b];
    assert Join([a, b], ", ") == a + ", " + b;
  }
}
