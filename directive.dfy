/** Suppression comments at a call site (`_check_ignore_comment`):
    `# pydantic-touchall: ignore` (or `# touchall: ignore`) drops every
    finding of the call, `# pydantic-touchall: ignore-field a, b` (or the
    `touchall` spelling) drops the findings about the named fields. Only the
    call's own line and the line before it are looked at. */
module Directive {
  import opened Text

  const LongFieldMarker := "# pydantic-touchall: ignore-field"
  const ShortFieldMarker := "# touchall: ignore-field"
  const LongIgnoreMarker := "# pydantic-touchall: ignore"
  const ShortIgnoreMarker := "# touchall: ignore"
  const FieldKeyword := "ignore-field"

  /** The pair `_check_ignore_comment` returns: ignore everything, and the
      set of field names to ignore. */
  datatype Directive = Directive(ignoreAll: bool, ignored: set<string>)

  const NoDirective := Directive(false, {})

  predicate HasFieldMarker(line: string) {
    Contains(line, LongFieldMarker) || Contains(line, ShortFieldMarker)
  }

  predicate HasIgnoreMarker(line: string) {
    Contains(line, LongIgnoreMarker) || Contains(line, ShortIgnoreMarker)
  }

  /** `{f.strip() for f in text.split(',') if f.strip()}`. */
  function FieldNames(text: string): set<string> {
    var parts := Split(text, ',');
    set k | 0 <= k < |parts| && Strip(parts[k]) != "" :: Strip(parts[k])
  }

  /** What one candidate line decides, or `None` when the search goes on to
      the next candidate. */
  function LineDirective(line: string): Option<Directive> {
    if HasFieldMarker(line) then
      FieldMarkerDecides(line);
      var comment := After(line, "#");
      if Contains(comment, FieldKeyword) then
        Some(Directive(false, FieldNames(Strip(After(comment, FieldKeyword)))))
      else None
    else if HasIgnoreMarker(line) then Some(Directive(true, {}))
    else None
  }

  /** `lines_to_check`: the call's own line, then the one above it if there is one. */
  function CandidateLines(lines: seq<string>, lineno: int): seq<string>
    requires 1 <= lineno <= |lines|
  {
    [lines[lineno - 1]] + (if lineno > 1 then [lines[lineno - 2]] else [])
  }

  /** The first candidate line that decides, else no directive. */
  function FirstDecision(candidates: seq<string>): Directive
    decreases |candidates|
  {
    if candidates == [] then NoDirective
    else match LineDirective(candidates[0])
      case Some(d) => d
      case None => FirstDecision(candidates[1..])
  }

  /** `_check_ignore_comment(lineno)` over the file's lines (1-based `lineno`). */
  function DirectiveAt(lines: seq<string>, lineno: int): Directive {
    if lines == [] || lineno <= 0 || lineno > |lines| then NoDirective
    else FirstDecision(CandidateLines(lines, lineno))
  }

  // ---------------------------------------------------------------------------
  // Properties

  /** A marker that starts with `#` and holds `ignore-field` at `offset`:
      on a line that carries it, the line has a `#`, and after the line's
      first `#` (which is at or before the marker's) comes `ignore-field`. */
  lemma MarkerLeavesKeyword(line: string, marker: string, offset: nat)
    requires Contains(line, marker) && |marker| >= 1 && marker[0] == '#'
    requires offset >= 1 && OccursAt(marker, FieldKeyword, offset)
    ensures Contains(line, "#")
    ensures Contains(After(line, "#"), FieldKeyword)
  {
    var m := IndexOf(line, marker).value;
    assert OccursAt(marker, "#", 0) by { assert marker[0..1] == "#"; }
    OccursWithin(line, marker, "#", m, 0);
    OccurrenceFound(line, "#", m);
    OccursWithin(line, marker, FieldKeyword, m, offset);
    OccursAfter(line, "#", FieldKeyword, m + offset);
  }

  /** On a line carrying a field marker, the text after the line's first `#`
      always contains `ignore-field`, so the inner test of the parser never
      fails and a field marker always decides its line. */
  lemma FieldMarkerDecides(line: string)
    requires HasFieldMarker(line)
    ensures Contains(line, "#")
    ensures Contains(After(line, "#"), FieldKeyword)
  {
    if Contains(line, LongFieldMarker) {
      LongMarkerKeyword();
      MarkerLeavesKeyword(line, LongFieldMarker, 21);
    } else {
      ShortMarkerKeyword();
      MarkerLeavesKeyword(line, ShortFieldMarker, 12);
    }
  }

  lemma LongMarkerKeyword()
    ensures OccursAt(LongFieldMarker, FieldKeyword, 21)
  {
    assert LongFieldMarker[21..21 + |FieldKeyword|] == FieldKeyword;
  }

  lemma ShortMarkerKeyword()
    ensures OccursAt(ShortFieldMarker, FieldKeyword, 12)
  {
    assert ShortFieldMarker[12..12 + |FieldKeyword|] == FieldKeyword;
  }

  /** How one line decides: the field-scoped form is tested before the bare
      form, a field-scoped line never ignores everything, and a line with
      neither marker decides nothing. */
  lemma LineDirectiveCases(line: string)
    ensures HasFieldMarker(line) ==> Contains(line, "#") && Contains(After(line, "#"), FieldKeyword)
    ensures HasFieldMarker(line) ==>
      LineDirective(line) == Some(Directive(false, FieldNames(Strip(After(After(line, "#"), FieldKeyword)))))
    ensures !HasFieldMarker(line) && HasIgnoreMarker(line) ==> LineDirective(line) == Some(Directive(true, {}))
    ensures !HasFieldMarker(line) && !HasIgnoreMarker(line) ==> LineDirective(line).None?
  {
    if HasFieldMarker(line) {
      FieldMarkerDecides(line);
    }
  }

  /** Lookup order: out of range (or no lines) gives no directive; otherwise
      the call's own line decides if it carries a marker, then the line above
      it, and with neither there is no directive. */
  lemma DirectiveLookupOrder(lines: seq<string>, lineno: int)
    ensures (lines == [] || lineno <= 0 || lineno > |lines|) ==> DirectiveAt(lines, lineno) == NoDirective
    ensures 1 <= lineno <= |lines| && LineDirective(lines[lineno - 1]).Some? ==>
      DirectiveAt(lines, lineno) == LineDirective(lines[lineno - 1]).value
    ensures 1 <= lineno <= |lines| && LineDirective(lines[lineno - 1]).None? ==>
      DirectiveAt(lines, lineno) ==
        if lineno > 1 && LineDirective(lines[lineno - 2]).Some? then LineDirective(lines[lineno - 2]).value
        else NoDirective
  {
    if 1 <= lineno <= |lines| {
      if lineno > 1 {
        assert CandidateLines(lines, lineno) == [lines[lineno - 1], lines[lineno - 2]];
        FirstDecisionOfPair(lines[lineno - 1], lines[lineno - 2]);
      } else {
        assert CandidateLines(lines, lineno) == [lines[lineno - 1]];
        FirstDecisionOfPair(lines[lineno - 1], lines[lineno - 1]);
        assert [lines[lineno - 1]][1..] == [];
      }
    }
  }

  /** A field-scoped marker on the call's own line decides: the call is
      never wholly ignored, whatever the line above it says. */
  lemma OwnFieldLineBlocksAbove(lines: seq<string>, lineno: int)
    requires 1 <= lineno <= |lines| && HasFieldMarker(lines[lineno - 1])
    ensures LineDirective(lines[lineno - 1]).Some?
    ensures DirectiveAt(lines, lineno) == LineDirective(lines[lineno - 1]).value
    ensures !DirectiveAt(lines, lineno).ignoreAll
  {
    LineDirectiveCases(lines[lineno - 1]);
    DirectiveLookupOrder(lines, lineno);
  }

  lemma FirstDecisionOfPair(first: string, second: string)
    ensures FirstDecision([first, second]) ==
      match LineDirective(first)
      case Some(d) => d
      case None => (if LineDirective(second).Some? then LineDirective(second).value else NoDirective)
    ensures FirstDecision([first]) == if LineDirective(first).Some? then LineDirective(first).value else NoDirective
  {
    assert [second][1..] == [];
    assert FirstDecision([second]) == if LineDirective(second).Some? then LineDirective(second).value else NoDirective;
    assert [first, second][1..] == [second];
    assert [first][1..] == [];
  }

  /** A directive that ignores everything names no fields. */
  lemma {:induction false} DirectiveShape(lines: seq<string>, lineno: int)
    ensures DirectiveAt(lines, lineno).ignoreAll ==> DirectiveAt(lines, lineno).ignored == {}
  {
    DirectiveLookupOrder(lines, lineno);
    if 1 <= lineno <= |lines| {
      LineDirectiveCases(lines[lineno - 1]);
      if lineno > 1 {
        LineDirectiveCases(lines[lineno - 2]);
      }
    }
  }

  /** Every ignored name is one comma-separated piece with the surrounding
      white space taken off: not empty, no comma, no white space at either
      end; and every piece that is not blank is ignored. */
  lemma FieldNamesClean(text: string)
    ensures forall n :: n in FieldNames(text) ==>
      n != "" && ',' !in n && !IsSpace(n[0]) && !IsSpace(n[|n| - 1])
    ensures forall k :: 0 <= k < |Split(text, ',')| && Strip(Split(text, ',')[k]) != "" ==>
      Strip(Split(text, ',')[k]) in FieldNames(text)
  {
    var parts := Split(text, ',');
    forall n | n in FieldNames(text)
      ensures n != "" && ',' !in n && !IsSpace(n[0]) && !IsSpace(n[|n| - 1])
    {
      var k :| 0 <= k < |parts| && Strip(parts[k]) != "" && Strip(parts[k]) == n;
      CleanPiece(parts[k]);
    }
  }

  /** A comma-free piece strips to a comma-free name with no white space at
      either end. */
  lemma CleanPiece(part: string)
    requires ',' !in part && Strip(part) != ""
    ensures ',' !in Strip(part) && !IsSpace(Strip(part)[0]) && !IsSpace(Strip(part)[|Strip(part)| - 1])
  {
    var n := Strip(part);
    StripIsTrimmedSlice(part);
    var i :| TrimmedSliceAt(part, n, i);
    forall c | 0 <= c < |n| ensures n[c] != ',' {
      assert n[c] == part[i + c];
    }
  }

  // ---------------------------------------------------------------------------
  // A worked comment

  lemma AgeAddressSplit()
    ensures Split("age, address", ',') == ["age", " address"]
  {
    assert "age, address" == "age" + [','] + " address";
    SplitAtSeparator("age", " address", ',');
    SplitNoSeparator(" address", ',');
  }

  lemma AgeAddressStrip()
    ensures Strip("age") == "age"
    ensures Strip(" address") == "address"
  {
    StripClean("age");
    assert " address" == [' '] + "address";
    StripLeadingSpace(' ', "address");
    StripClean("address");
  }

  /** `age, address` names the fields `age` and `address`. */
  lemma AgeAddressNames()
    ensures FieldNames("age, address") == {"age", "address"}
  {
    AgeAddressNamesWithin();
    AgeAddressNamesBoth();
  }

  lemma AgeAddressNamesWithin()
    ensures FieldNames("age, address") <= {"age", "address"}
  {
    var parts := Split("age, address", ',');
    AgeAddressSplit();
    AgeAddressStrip();
    forall x | x in FieldNames("age, address") ensures x in {"age", "address"} {
      var k :| 0 <= k < |parts| && Strip(parts[k]) != "" && x == Strip(parts[k]);
      assert k == 0 || k == 1;
    }
  }

  lemma AgeAddressNamesBoth()
    ensures "age" in FieldNames("age, address") && "address" in FieldNames("age, address")
  {
    var parts := Split("age, address", ',');
    AgeAddressSplit();
    AgeAddressStrip();
    assert Strip(parts[0]) == "age" != "";
    assert Strip(parts[1]) == "address" != "";
  }

  /** The call line `user = User(  # pydantic-touchall: ignore-field age, address`,
      written as its code, its marker and the names after the marker; and the
      text after its `#`, written as the words before the keyword, the
      keyword and the names. */
  const AgeAddressCode := "user = User(  "
  const AgeAddressCall := AgeAddressCode + LongFieldMarker + " age, address"
  const AgeAddressLead := " pydantic-touchall: "
  const AgeAddressRest := AgeAddressLead + FieldKeyword + " age, address"

  lemma AgeAddressMarkerParts()
    ensures LongFieldMarker == "#" + (AgeAddressLead + FieldKeyword)
  {
  }

  lemma AgeAddressAtHash()
    ensures AgeAddressCall == AgeAddressCode + "#" + AgeAddressRest
  {
    AgeAddressMarkerParts();
  }

  lemma AgeAddressMarker()
    ensures HasFieldMarker(AgeAddressCall)
  {
    ContainsMiddle(AgeAddressCode, LongFieldMarker, " age, address");
  }

  lemma AgeAddressComment()
    ensures Contains(AgeAddressCall, "#")
    ensures After(AgeAddressCall, "#") == AgeAddressRest
  {
    AgeAddressAtHash();
    AfterFirst(AgeAddressCode, "#", AgeAddressRest);
  }

  /** The keyword does not start before its own place: the only `i` before
      it, in `pydantic`, is followed by `c`, not `g`. */
  lemma AgeAddressLeadFree()
    ensures forall j :: 0 <= j < |AgeAddressLead| ==> !OccursAt(AgeAddressRest, FieldKeyword, j)
  {
    forall j | 0 <= j < |AgeAddressLead| ensures !OccursAt(AgeAddressRest, FieldKeyword, j) {
      if j + |FieldKeyword| <= |AgeAddressRest| {
        assert AgeAddressRest[j..j + |FieldKeyword|][0] == AgeAddressRest[j];
        assert AgeAddressRest[j..j + |FieldKeyword|][1] == AgeAddressRest[j + 1];
      }
      if j == 7 {
        assert AgeAddressRest[8] == AgeAddressLead[8] == 'c';
      } else {
        assert AgeAddressRest[j] == AgeAddressLead[j] != 'i';
      }
    }
  }

  lemma AgeAddressFieldPart()
    ensures Contains(AgeAddressRest, FieldKeyword)
    ensures After(AgeAddressRest, FieldKeyword) == " age, address"
  {
    AgeAddressLeadFree();
    AfterFirstFrom(AgeAddressLead, FieldKeyword, " age, address");
  }

  lemma AgeAddressStripClean()
    ensures Strip("age, address") == "age, address"
  {
    var t := "age, address";
    assert t[0] == 'a' && t[|t| - 1] == 's';
    StripClean(t);
  }

  lemma AgeAddressStripSpace()
    ensures Strip(" age, address") == Strip("age, address")
  {
    var t := "age, address";
    assert " age, address" == [' '] + t;
    StripLeadingSpace(' ', t);
  }

  /** The call line `user = User(  # pydantic-touchall: ignore-field age, address`
      ignores exactly the fields `age` and `address` and not the whole call. */
  lemma AgeAddressLine()
    ensures LineDirective(AgeAddressCall) == Some(Directive(false, {"age", "address"}))
  {
    AgeAddressMarker();
    AgeAddressComment();
    AgeAddressFieldPart();
    AgeAddressStripClean();
    AgeAddressStripSpace();
    AgeAddressNames();
  }
}
