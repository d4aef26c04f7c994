/**
 * The checklist seeder `dhl_login/seeders/20250702152524-populate-checklists.js`:
 * every file of the checklist directory whose name mentions a checklist type
 * becomes a checklist row, with its order and title read off the name. The
 * directory listing and the fresh ids are parameters.
 */
module Seeder {
  import opened Wrappers
  import opened Strings
  import opened Models
  import opened Sorting

  /**
   * `getTypeFromFilename`: the lower-cased name is searched for `daily`,
   * then `weekly`, then `quarterly`; the first found wins.
   */
  function TypeFromFilename(filename: string): (t: Option<ChecklistType>)
    ensures t == Some(Daily) <==> Contains(ToLower(filename), "daily")
    ensures t == Some(Weekly) <==> !Contains(ToLower(filename), "daily") && Contains(ToLower(filename), "weekly")
    ensures t == Some(Quarterly) <==>
      !Contains(ToLower(filename), "daily") && !Contains(ToLower(filename), "weekly")
      && Contains(ToLower(filename), "quarterly")
    ensures t.Some? ==> Contains(ToLower(filename), TypeName(t.value))
  {
    var lower := ToLower(filename);
    if Contains(lower, "daily") then Some(Daily)
    else if Contains(lower, "weekly") then Some(Weekly)
    else if Contains(lower, "quarterly") then Some(Quarterly)
    else None
  }

  /** The case of the name does not matter. */
  lemma TypeIgnoresCase(filename: string)
    ensures TypeFromFilename(ToLower(filename)) == TypeFromFilename(filename)
  {
    ToLowerIdempotent(filename);
  }

  /** A name with a type word in it, in any case, is always seeded. */
  lemma TypeWordIsSeeded(p: string, q: string, t: ChecklistType)
    ensures TypeFromFilename(p + TypeName(t) + q).Some?
  {
    var w := TypeName(t);
    var s := p + w + q;
    var lower := ToLower(s);
    assert lower[|p|..|p| + |w|] == w by {
      forall i | 0 <= i < |w| ensures lower[|p| + i] == w[i] {
        assert s[|p| + i] == w[i];
        match t
        case Daily => assert LowerChar(w[i]) == w[i];
        case Weekly => assert LowerChar(w[i]) == w[i];
        case Quarterly => assert LowerChar(w[i]) == w[i];
      }
    }
    assert MatchesAt(lower, w, |p|);
    ContainsIffOccurs(lower, w);
  }

  /** `parseInt(file.split('_')[0], 10)`; `NaN` is `None`. */
  function OrderOfFile(file: string): (r: Option<int>)
    ensures r == ParseInt(file[..IndexOf(file, '_')])
  {
    SplitHead(file, '_');
    ParseInt(Split(file, '_')[0])
  }

  /** `file.replace('.html', '').split('_').slice(1).join(' ')`. */
  function TitleOfFile(file: string): string {
    Join(Split(ReplaceFirst(file, ".html", ""), '_')[1..], " ")
  }

  // Lemmas on split, join and the first `.html`

  lemma IndexOfAfter(a: string, b: string, c: char)
    requires c !in a
    ensures IndexOf(a + [c] + b, c) == |a|
  {
    var s := a + [c] + b;
    assert s[|a|] == c;
    assert forall i :: 0 <= i < |a| ==> s[i] == a[i];
  }

  lemma SplitAfter(a: string, b: string, c: char)
    requires c !in a
    ensures Split(a + [c] + b, c) == [a] + Split(b, c)
  {
    IndexOfAfter(a, b, c);
    var s := a + [c] + b;
    assert s[..|a|] == a;
    assert s[|a| + 1..] == b;
  }

  /** Splitting words joined by `c`, none of which holds `c`, gives the words back. */
  lemma {:induction false} SplitJoin(words: seq<string>, c: char)
    requires words != []
    requires forall w :: w in words ==> c !in w
    ensures Split(Join(words, [c]), c) == words
    decreases |words|
  {
    if |words| == 1 {
      assert words[0] in words;
      assert forall i :: 0 <= i < |words[0]| ==> words[0][i] != c;
    } else {
      assert words[0] in words;
      var rest := words[1..];
      assert forall w :: w in rest ==> w in words;
      SplitJoin(rest, c);
      SplitAfter(words[0], Join(rest, [c]), c);
    }
  }

  lemma {:induction false} CharNotInJoin(words: seq<string>, sep: string, ch: char)
    requires forall w :: w in words ==> ch !in w
    requires ch !in sep
    ensures ch !in Join(words, sep)
    decreases |words|
  {
    if |words| > 1 {
      assert words[0] in words;
      var rest := words[1..];
      assert forall w :: w in rest ==> w in words;
      CharNotInJoin(rest, sep, ch);
    } else if |words| == 1 {
      assert words[0] in words;
    }
  }

  /** In a name with no other dot, `.replace('.html', '')` strips the extension. */
  lemma ReplaceExtension(s: string)
    requires '.' !in s
    ensures ReplaceFirst(s + ".html", ".html", "") == s
  {
    var t := s + ".html";
    assert MatchesAt(t, ".html", |s|) by { assert t[|s|..|s| + 5] == ".html"; }
    forall i | 0 <= i < |s| ensures !MatchesAt(t, ".html", i) {
      assert t[i] == s[i];
    }
    assert Find(t, ".html") == |s|;
    assert t[..|s|] == s;
  }

  /**
   * A name of the form `<n>_<word>_…_<word>.html`, no word holding `_` or
   * `.`, seeds order `n` and the words separated by spaces as its title.
   */
  lemma SeedNameParsed(n: nat, words: seq<string>)
    requires words != []
    requires forall w :: w in words ==> '_' !in w && '.' !in w
    ensures OrderOfFile(NatToString(n) + "_" + Join(words, "_") + ".html") == Some(n)
    ensures TitleOfFile(NatToString(n) + "_" + Join(words, "_") + ".html") == Join(words, " ")
  {
    var ns := NatToString(n);
    var body := Join(words, "_");
    var file := ns + "_" + body + ".html";
    assert '_' !in ns && '.' !in ns by {
      forall i | 0 <= i < |ns| ensures ns[i] != '_' && ns[i] != '.' {
        assert IsDigit(ns[i]);
      }
    }
    assert file == ns + ['_'] + (body + ".html");
    SplitAfter(ns, body + ".html", '_');
    ParseIntOfNatToString(n);
    CharNotInJoin(words, "_", '.');
    assert '.' !in ns + "_" + body;
    ReplaceExtension(ns + "_" + body);
    SplitAfter(ns, body, '_');
    SplitJoin(words, '_');
    assert Split(ns + "_" + body, '_')[1..] == words;
  }

  // ---------------------------------------------------------------------
  // The seeding loop

  /** A row of the bulk insert; `order` is `None` where `parseInt` gives `NaN`. */
  datatype SeedRow = SeedRow(id: Id, filename: string, title: string, checklistType: ChecklistType,
                             order: Option<int>)

  /** The row is what the name says: its type, title and order are read off its file name. */
  predicate DescribesFile(r: SeedRow, typeOf: string -> Option<ChecklistType>) {
    && typeOf(r.filename) == Some(r.checklistType)
    && r.title == TitleOfFile(r.filename)
    && r.order == OrderOfFile(r.filename)
  }

  /**
   * The rows `up` inserts for a listing, `ids[k]` the fresh id drawn for
   * `files[k]`; `typeOf` is the type read off a name, `TypeFromFilename` in
   * the seeder.
   */
  function SeedRows(files: seq<string>, ids: seq<Id>, typeOf: string -> Option<ChecklistType>): (rows: seq<SeedRow>)
    requires |ids| == |files|
    ensures |rows| <= |files|
    ensures forall k :: 0 <= k < |rows| ==> DescribesFile(rows[k], typeOf)
  {
    if files == [] then []
    else
      var n := |files| - 1;
      var file := files[n];
      var t := typeOf(file);
      if t.Some? then SeedRows(files[..n], ids[..n], typeOf) + [SeedRow(ids[n], file, TitleOfFile(file), t.value, OrderOfFile(file))]
      else SeedRows(files[..n], ids[..n], typeOf)
  }

  /** The file names of the rows, in order. */
  function SeededNames(rows: seq<SeedRow>): (names: seq<string>)
    ensures |names| == |rows|
    ensures forall k :: 0 <= k < |rows| ==> names[k] == rows[k].filename
  {
    if rows == [] then [] else SeededNames(rows[..|rows| - 1]) + [rows[|rows| - 1].filename]
  }

  /**
   * Exactly the files whose name gives a type are seeded, in the order of
   * the listing.
   */
  lemma {:induction false} SeedRowsCoverTypedFiles(files: seq<string>, ids: seq<Id>,
                                                   typeOf: string -> Option<ChecklistType>)
    requires |ids| == |files|
    ensures SeededNames(SeedRows(files, ids, typeOf)) == Filter(files, (f: string) => typeOf(f).Some?)
  {
    if files != [] {
      var n := |files| - 1;
      var init := SeedRows(files[..n], ids[..n], typeOf);
      var rows := SeedRows(files, ids, typeOf);
      SeedRowsCoverTypedFiles(files[..n], ids[..n], typeOf);
      if typeOf(files[n]).Some? {
        assert rows[..|rows| - 1] == init;
      }
    }
  }

  /** Each row carries one of the ids drawn. */
  lemma {:induction false} SeedRowIdsDrawn(files: seq<string>, ids: seq<Id>, typeOf: string -> Option<ChecklistType>)
    requires |ids| == |files|
    ensures forall k :: 0 <= k < |SeedRows(files, ids, typeOf)| ==> SeedRows(files, ids, typeOf)[k].id in ids
  {
    if files != [] {
      var n := |files| - 1;
      var init := SeedRows(files[..n], ids[..n], typeOf);
      var rows := SeedRows(files, ids, typeOf);
      SeedRowIdsDrawn(files[..n], ids[..n], typeOf);
      forall k | 0 <= k < |rows| ensures rows[k].id in ids {
        if k < |init| {
          assert rows[k] == init[k];
          assert init[k].id in ids[..n];
        }
      }
    }
  }

  /** One more file of the listing adds its row, if its name gives a type. */
  lemma SeedRowsStep(files: seq<string>, ids: seq<Id>, typeOf: string -> Option<ChecklistType>, i: nat)
    requires |ids| == |files| && i < |files|
    ensures SeedRows(files[..i + 1], ids[..i + 1], typeOf)
         == SeedRows(files[..i], ids[..i], typeOf)
            + (if typeOf(files[i]).Some?
               then [SeedRow(ids[i], files[i], TitleOfFile(files[i]), typeOf(files[i]).value, OrderOfFile(files[i]))]
               else [])
  {
    assert files[..i + 1][..i] == files[..i] && ids[..i + 1][..i] == ids[..i];
  }

  /** `up`: the loop over the listing, collecting the rows to insert. */
  method Up(files: seq<string>, ids: seq<Id>) returns (rows: seq<SeedRow>)
    requires |ids| == |files|
    ensures rows == SeedRows(files, ids, TypeFromFilename)
  {
    rows := [];
    for i := 0 to |files|
      invariant rows == SeedRows(files[..i], ids[..i], TypeFromFilename)
    {
      var file := files[i];
      var order := OrderOfFile(file);
      var title := TitleOfFile(file);
      var checklistType := TypeFromFilename(file);
      SeedRowsStep(files, ids, TypeFromFilename, i);
      if checklistType.Some? {
        rows := rows + [SeedRow(ids[i], file, title, checklistType.value, order)];
      }
    }
    assert files[..|files|] == files && ids[..|ids|] == ids;
  }
}
