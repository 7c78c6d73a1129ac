/** The quick-entry shorthand for a new task: `task | category | owner | deadline`. */
module TaskInput {
  import opened Strings
  import opened Seqs

  /** The four fields a quick entry supplies; the id and the status are added by the store. */
  datatype TaskFields = TaskFields(task: string, category: string, owner: string, deadline: string)

  /** `parts[i] || fallback`: a missing or empty part falls back. */
  function PartOr(parts: seq<string>, i: nat, fallback: string): string {
    if i < |parts| && parts[i] != [] then parts[i] else fallback
  }

  /** A part that is there and not empty is taken; otherwise the fallback is, so a non-empty
      fallback always gives a non-empty field. */
  lemma PartOrChoice(parts: seq<string>, i: nat, fallback: string)
    ensures i < |parts| && parts[i] != [] ==> PartOr(parts, i, fallback) == parts[i]
    ensures i >= |parts| || parts[i] == [] ==> PartOr(parts, i, fallback) == fallback
    ensures fallback != [] ==> PartOr(parts, i, fallback) != []
  {
  }

  /** `parts.map(s => s.trim())` */
  function TrimAll(parts: seq<string>): (r: seq<string>)
    ensures |r| == |parts|
    ensures forall i :: 0 <= i < |r| ==> Trimmed(r[i]) && (forall c :: c in r[i] ==> c in parts[i])
  {
    seq(|parts|, i requires 0 <= i < |parts| => Trim(parts[i]))
  }

  /** A field as the parser produces it: no surrounding spaces and no separator. */
  predicate FieldText(s: string) {
    Trimmed(s) && '|' !in s
  }

  /** What every parsed entry satisfies: the first three fields are never empty. */
  predicate WellFormed(f: TaskFields) {
    f.task != [] && f.category != [] && f.owner != [] &&
    FieldText(f.task) && FieldText(f.category) && FieldText(f.owner) && FieldText(f.deadline)
  }

  /** The parse in addTaskFromInput: nothing for a blank entry, otherwise the trimmed
      `|`-separated parts 0..3 with their defaults; later parts are not read. */
  function ParseTaskInput(input: string): (r: Option<TaskFields>)
    ensures r.None? <==> Trim(input) == []
    ensures r.Some? ==> WellFormed(r.value)
  {
    var raw := Trim(input);
    if raw == [] then None
    else
      FieldParts(Split(raw, '|'));
      DefaultsAreFields();
      Some(FieldsOf(TrimAll(Split(raw, '|'))))
  }

  /** The four fields taken from the trimmed parts, each with its default. */
  function FieldsOf(parts: seq<string>): TaskFields {
    TaskFields(PartOr(parts, 0, "New Task"), PartOr(parts, 1, "General"),
               PartOr(parts, 2, "Unassigned"), PartOr(parts, 3, ""))
  }

  /** Trimming `|`-free pieces gives field texts. */
  lemma FieldParts(pieces: seq<string>)
    requires forall i :: 0 <= i < |pieces| ==> '|' !in pieces[i]
    ensures forall i :: 0 <= i < |pieces| ==> FieldText(TrimAll(pieces)[i])
  {
    var ts := TrimAll(pieces);
    forall i | 0 <= i < |pieces| ensures '|' !in ts[i] {
      assert forall c :: c in ts[i] ==> c in pieces[i];
    }
  }

  /** The defaults are field texts too. */
  lemma DefaultsAreFields()
    ensures FieldText("New Task") && FieldText("General") && FieldText("Unassigned") && FieldText("")
  {
    assert !IsSpace('N') && !IsSpace('k') && !IsSpace('G') && !IsSpace('l') && !IsSpace('U') && !IsSpace('d');
  }

  /** Spaces glued to the front of the first part vanish in the trim. */
  lemma TrimAllGlueFirst(w: string, ps: seq<string>)
    requires |ps| >= 1 && forall i :: 0 <= i < |w| ==> IsSpace(w[i])
    ensures TrimAll([w + ps[0]] + ps[1..]) == TrimAll(ps)
  {
    var qs := [w + ps[0]] + ps[1..];
    var a, b := TrimAll(qs), TrimAll(ps);
    forall i | 0 <= i < |ps| ensures a[i] == b[i] {
      if i == 0 {
        assert qs[0] == w + ps[0] + [];
        TrimPadded(w, ps[0], []);
      } else {
        assert qs[i] == ps[1..][i - 1];
      }
    }
  }

  /** Spaces glued to the end of the last part vanish in the trim. */
  lemma TrimAllGlueLast(ps: seq<string>, w: string)
    requires |ps| >= 1 && forall i :: 0 <= i < |w| ==> IsSpace(w[i])
    ensures TrimAll(ps[..|ps| - 1] + [ps[|ps| - 1] + w]) == TrimAll(ps)
  {
    var n := |ps|;
    var qs := ps[..n - 1] + [ps[n - 1] + w];
    var a, b := TrimAll(qs), TrimAll(ps);
    forall i | 0 <= i < n ensures a[i] == b[i] {
      if i == n - 1 {
        assert qs[i] == [] + ps[i] + w;
        TrimPadded([], ps[i], w);
      } else {
        assert qs[i] == ps[..n - 1][i];
      }
    }
  }

  /** A separator that is not a space does not occur in a run of spaces. */
  lemma SpacesFree(w: string, sep: char)
    requires !IsSpace(sep) && forall i :: 0 <= i < |w| ==> IsSpace(w[i])
    ensures sep !in w
  {
    forall i | 0 <= i < |w| ensures w[i] != sep { assert IsSpace(w[i]); }
  }

  /** Trimming the whole entry before splitting it changes none of the trimmed parts: the
      spaces it removes belong to the first and the last part, which are trimmed anyway. */
  lemma TrimAllSplitTrim(s: string, sep: char)
    requires !IsSpace(sep)
    ensures TrimAll(Split(Trim(s), sep)) == TrimAll(Split(s, sep))
  {
    var w1, w2 := TrimSurround(s);
    LeadingSpacesSplit(w1, Trim(s) + w2, sep);
    TrailingSpacesSplit(Trim(s), w2, sep);
  }

  /** Spaces in front of a text only lengthen its first piece, so the trimmed pieces stay. */
  lemma LeadingSpacesSplit(w: string, t: string, sep: char)
    requires !IsSpace(sep) && forall i :: 0 <= i < |w| ==> IsSpace(w[i])
    ensures TrimAll(Split(w + t, sep)) == TrimAll(Split(t, sep))
  {
    SpacesFree(w, sep);
    SplitPrefix(w, t, sep);
    TrimAllGlueFirst(w, Split(t, sep));
  }

  /** Spaces after a text only lengthen its last piece, so the trimmed pieces stay. */
  lemma TrailingSpacesSplit(t: string, w: string, sep: char)
    requires !IsSpace(sep) && forall i :: 0 <= i < |w| ==> IsSpace(w[i])
    ensures TrimAll(Split(t + w, sep)) == TrimAll(Split(t, sep))
  {
    SpacesFree(w, sep);
    SplitSuffix(t, w, sep);
    TrimAllGlueLast(Split(t, sep), w);
  }

  /** Parsing the `|`-join of any parts gives the first four parts, each trimmed, with the
      default in place of each part that is empty after trimming or missing. */
  lemma ParseJoinedParts(ps: seq<string>)
    requires forall i :: 0 <= i < |ps| ==> '|' !in ps[i]
    requires Trim(Join(ps, '|')) != []
    ensures ParseTaskInput(Join(ps, '|')) == Some(FieldsOf(TrimAll(ps)))
  {
    JoinedPartsTrimmed(ps);
  }

  /** The trimmed `|`-pieces of the trimmed join of `|`-free parts are the trimmed parts. */
  lemma JoinedPartsTrimmed(ps: seq<string>)
    requires forall i :: 0 <= i < |ps| ==> '|' !in ps[i]
    requires ps != []
    ensures TrimAll(Split(Trim(Join(ps, '|')), '|')) == TrimAll(ps)
  {
    SplitJoin(ps, '|');
    assert !IsSpace('|');
    TrimAllSplitTrim(Join(ps, '|'), '|');
  }

  /** With the first three parts present, the parse is exactly the first four parts. */
  lemma ParseFullParts(ps: seq<string>, f: TaskFields)
    requires |ps| >= 4 && ps[0] != [] && ps[1] != [] && ps[2] != []
    requires forall i :: 0 <= i < |ps| ==> FieldText(ps[i])
    requires f == TaskFields(ps[0], ps[1], ps[2], ps[3])
    ensures ParseTaskInput(Join(ps, '|')) == Some(f)
  {
    JoinFirst(ps, '|');
    TrimNotEmpty(Join(ps, '|'));
    TrimAllClean(ps);
    ParseJoinedParts(ps);
  }

  /** A text that starts with a non-space character keeps it through the trim. */
  lemma TrimNotEmpty(s: string)
    requires s != [] && !IsSpace(s[0])
    ensures Trim(s) != []
  {
    var k: nat :| SliceBetweenSpaces(Trim(s), s, k);
  }

  /** Parts that are already field texts are their own trims. */
  lemma TrimAllClean(ps: seq<string>)
    requires forall i :: 0 <= i < |ps| ==> FieldText(ps[i])
    ensures TrimAll(ps) == ps
  {
    forall i | 0 <= i < |ps| ensures TrimAll(ps)[i] == ps[i] { TrimOfTrimmed(ps[i]); }
  }

  /** The parts of the shorthand `task|category|owner|deadline|extra...`. */
  function ShorthandParts(f: TaskFields, extra: seq<string>): seq<string> {
    [f.task, f.category, f.owner, f.deadline] + extra
  }

  lemma ShorthandPartsClean(f: TaskFields, extra: seq<string>)
    requires WellFormed(f)
    requires forall i :: 0 <= i < |extra| ==> FieldText(extra[i])
    ensures var ps := ShorthandParts(f, extra);
            |ps| >= 4 && ps[0] == f.task && ps[1] == f.category && ps[2] == f.owner && ps[3] == f.deadline &&
            forall i :: 0 <= i < |ps| ==> FieldText(ps[i])
  {
    var ps := ShorthandParts(f, extra);
    forall i | 0 <= i < |ps| ensures FieldText(ps[i]) {
      if i == 0 { assert ps[i] == f.task; }
      else if i == 1 { assert ps[i] == f.category; }
      else if i == 2 { assert ps[i] == f.owner; }
      else if i == 3 { assert ps[i] == f.deadline; }
      else { assert ps[i] == extra[i - 4]; }
    }
  }

  /** Quick entry inverts the shorthand: writing well-formed fields as `a|b|c|d`, with any
      further clean parts after them, parses back to exactly those fields. */
  lemma ParseTaskInputRoundTrip(f: TaskFields, extra: seq<string>)
    requires WellFormed(f)
    requires forall i :: 0 <= i < |extra| ==> FieldText(extra[i])
    ensures ParseTaskInput(Join(ShorthandParts(f, extra), '|')) == Some(f)
  {
    ShorthandPartsClean(f, extra);
    ParseFullParts(ShorthandParts(f, extra), f);
  }
}
