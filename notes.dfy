/**
 * The notes page: flattening stored memo records into individual notes
 * (`sanitizeMemos`) and the guarded submission of a new note (`addNote`).
 */
module Notes {
  import opened Wrappers
  import opened Seqs

  /** One entry of a record's `memo` array; a field is None when it is falsy. */
  datatype MemoItem = MemoItem(text: Option<string>, tool: Option<string>)

  /** A stored `memo` row: null, or an id with a `memo` field that may not be an array (None). */
  datatype MemoRecord = NullRecord | MemoRecord(id: string, memo: Option<seq<MemoItem>>)

  /** A note as listed on the page; it carries the id of the record it came from. */
  datatype Note = Note(id: string, text: string, tool: string)

  /** Whether a record contributes notes: non-null with an array `memo`. */
  predicate IsValidRecord(r: MemoRecord)
    ensures r.NullRecord? ==> !IsValidRecord(r)
    ensures r.MemoRecord? ==> (IsValidRecord(r) <==> r.memo.Some?)
  {
    r.MemoRecord? && r.memo.Some?
  }

  /** One note per memo item, `text || ''` and `tool || ''`. */
  function NoteOf(id: string, item: MemoItem): (n: Note)
    ensures n.id == id
    ensures item.text.Some? ==> n.text == item.text.value
    ensures item.text.None? ==> n.text == ""
    ensures item.tool.Some? ==> n.tool == item.tool.value
    ensures item.tool.None? ==> n.tool == ""
  {
    Note(id, item.text.GetOr(""), item.tool.GetOr(""))
  }

  /** A record's notes, or nothing for a record that is null or lacks a memo array. */
  function NotesOf(r: MemoRecord): (ns: Option<seq<Note>>)
    ensures ns.Some? <==> IsValidRecord(r)
    ensures ns.Some? ==> |ns.value| == |r.memo.value|
    ensures ns.Some? ==> forall j :: 0 <= j < |ns.value| ==> ns.value[j] == NoteOf(r.id, r.memo.value[j])
  {
    if !IsValidRecord(r) then None
    else
      var items := r.memo.value;
      Some(seq(|items|, j requires 0 <= j < |items| => NoteOf(r.id, items[j])))
  }

  /** `memos.map(...)`: one entry per record, None for a record that gives no notes. */
  function NotesPerRecord(records: seq<MemoRecord>): (r: seq<Option<seq<Note>>>)
    ensures |r| == |records|
    ensures forall i :: 0 <= i < |records| ==> r[i] == NotesOf(records[i])
  {
    seq(|records|, i requires 0 <= i < |records| => NotesOf(records[i]))
  }

  /** The number of notes the records hold: the memo lengths of the valid records, summed. */
  function EntryCount(records: seq<MemoRecord>): nat {
    if |records| == 0 then 0
    else (if IsValidRecord(records[0]) then |records[0].memo.value| else 0) + EntryCount(records[1..])
  }

  /**
   * `sanitizeMemos`: a non-array gives no notes; otherwise the notes of each
   * valid record, records in order and items in order within a record.
   */
  function SanitizeMemos(memos: Option<seq<MemoRecord>>): (r: seq<Note>)
    ensures memos.None? ==> r == []
    ensures memos.Some? ==> |r| == EntryCount(memos.value)
  {
    if memos.None? then []
    else
      var parts := NotesPerRecord(memos.value);
      EntryCountIsLength(memos.value);
      Flatten(Compact(parts))
  }

  lemma {:induction false} EntryCountIsLength(records: seq<MemoRecord>)
    ensures TotalLength(Compact(NotesPerRecord(records))) == EntryCount(records)
  {
    if |records| > 0 {
      var parts := NotesPerRecord(records);
      assert parts == [parts[0]] + NotesPerRecord(records[1..]);
      CompactAppend([parts[0]], NotesPerRecord(records[1..]));
      TotalLengthAppend(Compact([parts[0]]), Compact(NotesPerRecord(records[1..])));
      EntryCountIsLength(records[1..]);
      assert Compact([parts[0]]) == (if parts[0].Some? then [parts[0].value] else []);
    }
  }

  /** The notes of concatenated record lists are the notes of each list, one after the other. */
  lemma {:induction false} SanitizeAppend(a: seq<MemoRecord>, b: seq<MemoRecord>)
    ensures SanitizeMemos(Some(a + b)) == SanitizeMemos(Some(a)) + SanitizeMemos(Some(b))
  {
    assert NotesPerRecord(a + b) == NotesPerRecord(a) + NotesPerRecord(b);
    CompactAppend(NotesPerRecord(a), NotesPerRecord(b));
    FlattenAppend(Compact(NotesPerRecord(a)), Compact(NotesPerRecord(b)));
  }

  /**
   * A single record yields nothing when it is null or has no memo array, and
   * otherwise one note per item, in item order, each with the record's id.
   */
  lemma {:induction false} SanitizeOne(r: MemoRecord)
    ensures !IsValidRecord(r) ==> SanitizeMemos(Some([r])) == []
    ensures IsValidRecord(r) ==> |SanitizeMemos(Some([r]))| == |r.memo.value|
    ensures IsValidRecord(r) ==> forall j :: 0 <= j < |r.memo.value| ==>
      SanitizeMemos(Some([r]))[j] == NoteOf(r.id, r.memo.value[j])
  {
    var parts := NotesPerRecord([r]);
    assert parts == [NotesOf(r)];
    assert Compact(parts) == (if NotesOf(r).Some? then [NotesOf(r).value] else []);
    if NotesOf(r).Some? {
      assert Flatten([NotesOf(r).value]) == NotesOf(r).value + Flatten([]);
    }
  }

  /**
   * The position of every note: item `j` of valid record `i` sits after the
   * notes of all earlier records, and carries record `i`'s id.
   */
  lemma {:induction false} SanitizeAt(records: seq<MemoRecord>, i: nat, j: nat)
    requires i < |records| && IsValidRecord(records[i]) && j < |records[i].memo.value|
    ensures EntryCount(records[..i]) + j < |SanitizeMemos(Some(records))|
    ensures SanitizeMemos(Some(records))[EntryCount(records[..i]) + j] == NoteOf(records[i].id, records[i].memo.value[j])
    ensures SanitizeMemos(Some(records))[EntryCount(records[..i]) + j].id == records[i].id
  {
    var front, here, back := records[..i], [records[i]], records[i + 1..];
    assert records == front + here + back;
    SanitizeAppend(front + here, back);
    SanitizeAppend(front, here);
    SanitizeOne(records[i]);
  }

  // ---------------------------------------------------------------------------
  // Submitting a new note

  /** The characters `String.prototype.trim` removes: white space and line terminators. */
  predicate IsWhitespace(c: char)
    ensures c == ' ' || c == '\t' || c == '\n' || c == '\r' ==> IsWhitespace(c)
    ensures '!' <= c <= '~' ==> !IsWhitespace(c)
  {
    || c == '\t' || c == '\n' || c == '\U{000B}' || c == '\U{000C}' || c == '\r' || c == ' '
    || c == '\U{00A0}' || c == '\U{1680}' || ('\U{2000}' <= c <= '\U{200A}')
    || c == '\U{2028}' || c == '\U{2029}' || c == '\U{202F}' || c == '\U{205F}'
    || c == '\U{3000}' || c == '\U{FEFF}'
  }

  function TrimStart(s: string): (r: string)
    ensures |r| <= |s| && r == s[|s| - |r|..]
    ensures forall i :: 0 <= i < |s| - |r| ==> IsWhitespace(s[i])
    ensures r != [] ==> !IsWhitespace(r[0])
  {
    if |s| > 0 && IsWhitespace(s[0]) then TrimStart(s[1..]) else s
  }

  function TrimEnd(s: string): (r: string)
    ensures |r| <= |s| && r == s[..|r|]
    ensures forall i :: |r| <= i < |s| ==> IsWhitespace(s[i])
    ensures r != [] ==> !IsWhitespace(r[|r| - 1])
  {
    if |s| > 0 && IsWhitespace(s[|s| - 1]) then TrimEnd(s[..|s| - 1]) else s
  }

  /** `text.trim()`: empty exactly when every character is white space. */
  function Trim(s: string): (r: string)
    ensures r == "" <==> forall i :: 0 <= i < |s| ==> IsWhitespace(s[i])
    ensures r != "" ==> !IsWhitespace(r[0]) && !IsWhitespace(r[|r| - 1])
  {
    var t := TrimStart(s);
    var r := TrimEnd(t);
    assert r == "" ==> forall i :: 0 <= i < |s| ==> IsWhitespace(s[i]) by {
      if r == "" {
        assert t == "";
      }
    }
    r
  }

  /** The draft being typed (`newNote`). */
  datatype Draft = Draft(text: string, tool: string)

  const EmptyDraft: Draft := Draft("", "")

  /** The draft as a stored memo item: an empty field is falsy, so it is None. */
  function ItemOf(draft: Draft): (item: MemoItem)
    ensures item.text.Some? <==> draft.text != ""
    ensures item.tool.Some? <==> draft.tool != ""
    ensures NoteOf("", item).text == draft.text && NoteOf("", item).tool == draft.tool
  {
    MemoItem(if draft.text == "" then None else Some(draft.text),
             if draft.tool == "" then None else Some(draft.tool))
  }

  /** What `addNote` does: the memo array it submits, if any, and the draft afterwards. */
  datatype AddResult = AddResult(submitted: Option<seq<MemoItem>>, draft: Draft)

  /**
   * `addNote`: submits `{memo: [newNote]}` only when the trimmed text is
   * non-empty, with the text itself untrimmed; the draft is reset only when
   * the insert succeeds (`inserted`), and kept when it fails.
   */
  function AddNote(draft: Draft, inserted: bool): (r: AddResult)
    ensures r.submitted.Some? <==> exists i :: 0 <= i < |draft.text| && !IsWhitespace(draft.text[i])
    ensures r.submitted.Some? ==> r.submitted.value == [ItemOf(draft)]
    ensures r.draft == EmptyDraft <==> (r.submitted.Some? && inserted) || draft == EmptyDraft
    ensures r.draft != EmptyDraft ==> r.draft == draft
  {
    if Trim(draft.text) != "" then
      AddResult(Some([ItemOf(draft)]), if inserted then EmptyDraft else draft)
    else
      AddResult(None, draft)
  }

  /**
   * A submitted note comes back from the stored record unchanged: one note,
   * with the record's id and the draft's text and tool.
   */
  lemma {:induction false} AddNoteRoundTrip(draft: Draft, inserted: bool, id: string)
    requires AddNote(draft, inserted).submitted.Some?
    ensures SanitizeMemos(Some([MemoRecord(id, AddNote(draft, inserted).submitted)])) == [Note(id, draft.text, draft.tool)]
  {
    SanitizeOne(MemoRecord(id, AddNote(draft, inserted).submitted));
  }
}
