/**
 * The text carried by a book's QR code (`barcode-detect/QRCODE.py`): five
 * `key: value` lines, and the parser that turns such text back into a
 * key/value map. The Python string operations the code relies on
 * (`split`, `strip`, `in`, `replace`) are defined here with Python's meaning.
 */
module QrText {
  import opened Wrappers

  // ---------------------------------------------------------------------
  // Python string operations

  /** The position of the first `c` in `s`, if any. */
  function FirstIndex(s: string, c: char): (r: Option<nat>)
    ensures r.Some? ==> r.value < |s| && s[r.value] == c && c !in s[..r.value]
    ensures r.None? ==> c !in s
  {
    if s == [] then None
    else if s[0] == c then Some(0)
    else
      var rest := FirstIndex(s[1..], c);
      assert s == [s[0]] + s[1..];
      if rest.Some? then
        assert s[..rest.value + 1] == [s[0]] + s[1..][..rest.value];
        Some(rest.value + 1)
      else None
  }

  /** `sep.join(parts)`. */
  function Join(parts: seq<string>, sep: char): string
  {
    if |parts| == 0 then ""
    else if |parts| == 1 then parts[0]
    else parts[0] + [sep] + Join(parts[1..], sep)
  }

  /** `s.split(sep)` for a one-character separator: never empty, and joining the pieces gives `s` back. */
  function Split(s: string, sep: char): (r: seq<string>)
    ensures |r| >= 1
    ensures forall i :: 0 <= i < |r| ==> sep !in r[i]
    ensures Join(r, sep) == s
    decreases |s|
  {
    match FirstIndex(s, sep)
    case None => [s]
    case Some(i) =>
      var rest := Split(s[i + 1..], sep);
      var r := [s[..i]] + rest;
      assert r[1..] == rest;
      assert s == s[..i] + [sep] + s[i + 1..];
      r
  }

  /** Finding `c` right after a `c`-free prefix. */
  lemma FirstIndexAfterFreePrefix(a: string, c: char, b: string)
    requires c !in a
    ensures FirstIndex(a + [c] + b, c) == Some(|a|)
  {
    var s := a + [c] + b;
    assert s[|a|] == c;
    assert s[..|a|] == a;
  }

  /** Splitting what was joined from separator-free pieces gives the pieces back. */
  lemma {:induction false} SplitJoin(parts: seq<string>, sep: char)
    requires |parts| >= 1
    requires forall i :: 0 <= i < |parts| ==> sep !in parts[i]
    ensures Split(Join(parts, sep), sep) == parts
  {
    if |parts| == 1 {
      assert FirstIndex(parts[0], sep).None?;
    } else {
      var rest := Join(parts[1..], sep);
      FirstIndexAfterFreePrefix(parts[0], sep, rest);
      var s := parts[0] + [sep] + rest;
      assert Join(parts, sep) == s;
      assert s[..|parts[0]|] == parts[0];
      assert s[|parts[0]| + 1..] == rest;
      assert Split(s, sep) == [parts[0]] + Split(rest, sep);
      SplitJoin(parts[1..], sep);
      assert parts == [parts[0]] + parts[1..];
    }
  }

  /** A character of a piece is a character of the joined text. */
  lemma {:induction false} JoinKeepsPieces(parts: seq<string>, sep: char, i: nat, c: char)
    requires i < |parts| && c in parts[i]
    ensures c in Join(parts, sep)
  {
    if |parts| > 1 {
      if i == 0 {
        assert Join(parts, sep) == parts[0] + ([sep] + Join(parts[1..], sep));
      } else {
        JoinKeepsPieces(parts[1..], sep, i - 1, c);
        assert Join(parts, sep) == (parts[0] + [sep]) + Join(parts[1..], sep);
      }
    }
  }

  /** Splitting a text without some character gives pieces without it. */
  lemma SplitKeepsAbsence(s: string, sep: char, c: char)
    requires c !in s
    ensures forall i :: 0 <= i < |Split(s, sep)| ==> c !in Split(s, sep)[i]
  {
    var parts := Split(s, sep);
    forall i | 0 <= i < |parts| ensures c !in parts[i] {
      if c in parts[i] {
        JoinKeepsPieces(parts, sep, i, c);
      }
    }
  }

  /** A text splits into a single piece exactly when it has no separator. */
  lemma OneLineExactly(s: string, sep: char)
    ensures |Split(s, sep)| == 1 <==> sep !in s
  {
    if sep in s {
      var parts := Split(s, sep);
      assert FirstIndex(s, sep).Some?;
      assert |parts| >= 2;
    }
  }

  /** `line.split(c, 1)` on a line containing `c`: the text before the first `c` and the text after it. */
  function SplitOnce(line: string, c: char): (r: Option<(string, string)>)
    ensures r.Some? <==> c in line
    ensures r.Some? ==> c !in r.value.0 && r.value.0 + [c] + r.value.1 == line
  {
    match FirstIndex(line, c)
    case None => None
    case Some(i) =>
      assert line == line[..i] + [c] + line[i + 1..];
      Some((line[..i], line[i + 1..]))
  }

  /** The characters `str.strip()` removes: those Python classes as whitespace. */
  predicate IsSpace(c: char)
  {
    || ('\U{9}' <= c <= '\U{D}') || ('\U{1C}' <= c <= '\U{20}')
    || c == '\U{85}' || c == '\U{A0}' || c == '\U{1680}' || ('\U{2000}' <= c <= '\U{200A}')
    || c == '\U{2028}' || c == '\U{2029}' || c == '\U{202F}' || c == '\U{205F}' || c == '\U{3000}'
  }

  /** `s.lstrip()`: a suffix of `s`, after a run of whitespace, that does not start with whitespace. */
  function TrimLeft(s: string): (r: string)
    ensures |r| <= |s| && r == s[|s| - |r|..]
    ensures forall i :: 0 <= i < |s| - |r| ==> IsSpace(s[i])
    ensures r == [] || !IsSpace(r[0])
  {
    if s == [] || !IsSpace(s[0]) then s
    else
      var r := TrimLeft(s[1..]);
      assert s[1..][|s| - 1 - |r|..] == s[|s| - |r|..];
      r
  }

  /** `s.rstrip()`: a prefix of `s`, before a run of whitespace, that does not end with whitespace. */
  function TrimRight(s: string): (r: string)
    ensures |r| <= |s| && r == s[..|r|]
    ensures forall i :: |r| <= i < |s| ==> IsSpace(s[i])
    ensures r == [] || !IsSpace(r[|r| - 1])
  {
    if s == [] || !IsSpace(s[|s| - 1]) then s
    else
      var r := TrimRight(s[..|s| - 1]);
      assert s[..|s| - 1][..|r|] == s[..|r|];
      r
  }

  /** Neither starts nor ends with whitespace. */
  predicate IsStripped(s: string)
  {
    s == [] || (!IsSpace(s[0]) && !IsSpace(s[|s| - 1]))
  }

  /** `s.strip()`: without surrounding whitespace, and the identity on text that has none. */
  function Strip(s: string): (r: string)
    ensures IsStripped(r) && |r| <= |s|
    ensures IsStripped(s) ==> r == s
  {
    TrimRight(TrimLeft(s))
  }

  /** `r` is the slice of `s` starting at `a`, with only whitespace before and after it. */
  ghost predicate SliceBetweenSpaces(s: string, r: string, a: int)
  {
    && 0 <= a <= |s| - |r| && r == s[a..a + |r|]
    && (forall i :: 0 <= i < a ==> IsSpace(s[i]))
    && (forall i :: a + |r| <= i < |s| ==> IsSpace(s[i]))
  }

  /** What `strip` removes: whitespace at both ends and nothing else. */
  lemma StripIsASlice(s: string)
    ensures exists a :: SliceBetweenSpaces(s, Strip(s), a)
  {
    var left := TrimLeft(s);
    var r := TrimRight(left);
    var a := |s| - |left|;
    assert r == s[a..a + |r|];
    forall i | a + |r| <= i < |s| ensures IsSpace(s[i]) {
      assert s[i] == left[i - a];
    }
    assert Strip(s) == r;
    assert SliceBetweenSpaces(s, r, a);
  }

  /** Leading whitespace goes, down to the first other character. */
  lemma {:induction false} TrimLeftSpaces(spaces: string, v: string)
    requires forall i :: 0 <= i < |spaces| ==> IsSpace(spaces[i])
    requires v == [] || !IsSpace(v[0])
    ensures TrimLeft(spaces + v) == v
  {
    if spaces != [] {
      assert (spaces + v)[0] == spaces[0];
      assert (spaces + v)[1..] == spaces[1..] + v;
      TrimLeftSpaces(spaces[1..], v);
    } else {
      assert spaces + v == v;
    }
  }

  /** Stripping leading whitespace from a stripped text gives that text back. */
  lemma StripAfterSpaces(spaces: string, v: string)
    requires forall i :: 0 <= i < |spaces| ==> IsSpace(spaces[i])
    requires IsStripped(v)
    ensures Strip(spaces + v) == v
  {
    TrimLeftSpaces(spaces, v);
  }

  /** `pattern` occurs in `s` at position `i`. */
  predicate OccursAt(s: string, pattern: string, i: int)
  {
    0 <= i <= |s| - |pattern| && s[i..i + |pattern|] == pattern
  }

  /** `pattern in s`. */
  predicate Contains(s: string, pattern: string)
  {
    exists i :: 0 <= i <= |s| - |pattern| && OccursAt(s, pattern, i)
  }

  /** What occurs after the first character occurs in the whole text. */
  lemma ContainedInTail(s: string, pattern: string)
    requires s != []
    ensures Contains(s[1..], pattern) ==> Contains(s, pattern)
  {
    if Contains(s[1..], pattern) {
      var i :| 0 <= i <= |s[1..]| - |pattern| && OccursAt(s[1..], pattern, i);
      assert s[i + 1..i + 1 + |pattern|] == s[1..][i..i + |pattern|];
      assert OccursAt(s, pattern, i + 1);
    }
  }

  /** `s.replace(pattern, replacement)`: every occurrence, scanning left to right without overlaps. */
  function ReplaceAll(s: string, pattern: string, replacement: string): (r: string)
    requires pattern != []
    ensures !Contains(s, pattern) ==> r == s
    decreases |s|
  {
    if |s| < |pattern| then s
    else if s[..|pattern|] == pattern then
      assert OccursAt(s, pattern, 0);
      replacement + ReplaceAll(s[|pattern|..], pattern, replacement)
    else
      var rest := ReplaceAll(s[1..], pattern, replacement);
      ContainedInTail(s, pattern);
      assert s == [s[0]] + s[1..];
      [s[0]] + rest
  }

  // ---------------------------------------------------------------------
  // The payload of a book's QR code

  /** The book fields a QR code is generated from. */
  datatype QrBook = QrBook(title: string, author: string, isbn: string, category: string, status: string)

  const TitleKey := "書名"
  const AuthorKey := "作者"
  const IsbnKey := "ISBN"
  const CategoryKey := "分類"
  const StatusKey := "狀態"

  /** The five lines, in their fixed order, each `key: value`. */
  function FieldLines(b: QrBook): seq<string>
  {
    [TitleKey + ": " + b.title, AuthorKey + ": " + b.author, IsbnKey + ": " + b.isbn,
     CategoryKey + ": " + b.category, StatusKey + ": " + b.status]
  }

  /** `generate_book_qrcode` (lines 14-18): the lines joined with newlines, no trailing newline. */
  function Serialize(b: QrBook): string
  {
    Join(FieldLines(b), '\n')
  }

  predicate NoNewline(s: string)
  {
    '\n' !in s
  }

  predicate FieldsFitOnALine(b: QrBook)
  {
    NoNewline(b.title) && NoNewline(b.author) && NoNewline(b.isbn) && NoNewline(b.category) && NoNewline(b.status)
  }

  predicate FieldsStripped(b: QrBook)
  {
    IsStripped(b.title) && IsStripped(b.author) && IsStripped(b.isbn) && IsStripped(b.category) && IsStripped(b.status)
  }

  /** When no field holds a newline, the payload reads back as exactly the five field lines, in order. */
  lemma SerializeHasFiveLines(b: QrBook)
    requires FieldsFitOnALine(b)
    ensures var lines := Split(Serialize(b), '\n');
            |lines| == 5 && lines == FieldLines(b) &&
            lines[0] == "書名: " + b.title && lines[4] == "狀態: " + b.status
  {
    var lines := FieldLines(b);
    forall i | 0 <= i < 5 ensures '\n' !in lines[i] {
      assert lines[i] == lines[i][..4] + lines[i][4..];
    }
    SplitJoin(lines, '\n');
  }

  // ---------------------------------------------------------------------
  // Reading a payload back

  /** What one line contributes: its stripped key and value, split at the first colon, if it has a colon. */
  function LineEntry(line: string): (r: Option<(string, string)>)
    ensures r.Some? <==> ':' in line
  {
    match SplitOnce(line, ':')
    case None => None
    case Some((key, value)) => Some((Strip(key), Strip(value)))
  }

  /** What a line-by-line reading contributes, one entry per line. */
  type Entry = Option<(string, string)>

  /** The entries a line reading `read` gives the lines, in order. */
  function EntriesBy(lines: seq<string>, read: string -> Entry): (r: seq<Entry>)
    ensures |r| == |lines|
  {
    if lines == [] then [] else EntriesBy(lines[..|lines| - 1], read) + [read(lines[|lines| - 1])]
  }

  /** Each entry is the reading of the line at the same position. */
  lemma {:induction false} EntryAt(lines: seq<string>, read: string -> Entry, i: nat)
    requires i < |lines|
    ensures EntriesBy(lines, read)[i] == read(lines[i])
  {
    if i < |lines| - 1 {
      EntryAt(lines[..|lines| - 1], read, i);
    }
  }

  /** Entries that are the readings of the lines, position by position, are the lines' entries. */
  lemma EntriesOfReadLines(lines: seq<string>, read: string -> Entry, entries: seq<Entry>)
    requires |entries| == |lines|
    requires forall i :: 0 <= i < |lines| ==> read(lines[i]) == entries[i]
    ensures EntriesBy(lines, read) == entries
  {
    forall i | 0 <= i < |lines| ensures EntriesBy(lines, read)[i] == entries[i] {
      EntryAt(lines, read, i);
    }
  }

  /** The entries of two runs of lines are the entries of each, one after the other. */
  lemma {:induction false} EntriesOfConcat(xs: seq<string>, ys: seq<string>, read: string -> Entry)
    ensures EntriesBy(xs + ys, read) == EntriesBy(xs, read) + EntriesBy(ys, read)
  {
    if ys == [] {
      assert xs + ys == xs;
    } else {
      var init := ys[..|ys| - 1];
      EntriesOfConcat(xs, init, read);
      assert (xs + ys)[..|xs + ys| - 1] == xs + init by {
        var a, b := (xs + ys)[..|xs + ys| - 1], xs + init;
        forall k | 0 <= k < |a| ensures a[k] == b[k] {
          if k >= |xs| {
            assert a[k] == ys[k - |xs|];
          }
        }
      }
    }
  }

  /** The map built from entries in order, later entries overwriting earlier ones. */
  function Collect(entries: seq<Entry>): map<string, string>
  {
    if entries == [] then map[]
    else
      var m := Collect(entries[..|entries| - 1]);
      match entries[|entries| - 1]
      case None => m
      case Some((key, value)) => m[key := value]
  }

  /** Collecting one more entry adds its key, or changes nothing for an empty entry. */
  lemma CollectOneMore(entries: seq<Entry>, i: nat)
    requires i < |entries|
    ensures entries[i].None? ==> Collect(entries[..i + 1]) == Collect(entries[..i])
    ensures entries[i].Some? ==>
              Collect(entries[..i + 1]) == Collect(entries[..i])[entries[i].value.0 := entries[i].value.1]
  {
    assert entries[..i + 1][..i] == entries[..i];
  }

  /** The map parsed from the lines of a payload. */
  function ParsedFrom(lines: seq<string>): map<string, string>
  {
    Collect(EntriesBy(lines, LineEntry))
  }

  /** The parsing loop of `scan_qr_code_and_display_json` (lines 63-68). */
  method ParseKeyValues(raw: string) returns (parsed: map<string, string>)
    ensures parsed == ParsedFrom(Split(raw, '\n'))
  {
    parsed := map[];
    var lines := Split(raw, '\n');
    ghost var entries := EntriesBy(lines, LineEntry);
    for i := 0 to |lines|
      invariant parsed == Collect(entries[..i])
    {
      var line := lines[i];
      EntryAt(lines, LineEntry, i);
      CollectOneMore(entries, i);
      if ':' in line {
        var parts := SplitOnce(line, ':').value;
        parsed := parsed[Strip(parts.0) := Strip(parts.1)];
      }
    }
    assert entries[..|lines|] == entries;
  }

  /** An empty entry contributes nothing, wherever it stands. */
  lemma {:induction false} EmptyEntryIsIgnored(before: seq<Entry>, after: seq<Entry>)
    ensures Collect(before + [None] + after) == Collect(before + after)
  {
    if after == [] {
      assert (before + [None])[..|before|] == before;
      assert before + [None] + after == before + [None];
      assert before + after == before;
    } else {
      var a' := after[..|after| - 1];
      EmptyEntryIsIgnored(before, a');
      assert (before + [None] + after)[..|before + [None] + after| - 1] == before + [None] + a';
      assert (before + after)[..|before + after| - 1] == before + a';
    }
  }

  /** A line without a colon contributes nothing, wherever it stands. */
  lemma ColonFreeLineIsIgnored(before: seq<string>, line: string, after: seq<string>)
    requires ':' !in line
    ensures ParsedFrom(before + [line] + after) == ParsedFrom(before + after)
  {
    EntriesOfConcat(before + [line], after, LineEntry);
    EntriesOfConcat(before, [line], LineEntry);
    assert EntriesBy([line], LineEntry) == [None] by {
      assert [line][..0] == [];
    }
    EntriesOfConcat(before, after, LineEntry);
    EmptyEntryIsIgnored(EntriesBy(before, LineEntry), EntriesBy(after, LineEntry));
  }

  /** A key is collected exactly when some entry carries it. */
  lemma {:induction false} CollectedKeys(entries: seq<Entry>, key: string)
    ensures key in Collect(entries) <==>
            exists j :: 0 <= j < |entries| && entries[j].Some? && entries[j].value.0 == key
  {
    if entries != [] {
      var init := entries[..|entries| - 1];
      CollectedKeys(init, key);
      assert forall j :: 0 <= j < |init| ==> init[j] == entries[j];
    }
  }

  /** A key is parsed exactly when some line with a colon carries it. */
  lemma ParsedKeys(lines: seq<string>, key: string)
    ensures key in ParsedFrom(lines) <==>
            exists j :: 0 <= j < |lines| && LineEntry(lines[j]).Some? && LineEntry(lines[j]).value.0 == key
  {
    CollectedKeys(EntriesBy(lines, LineEntry), key);
    forall j | 0 <= j < |lines| {
      EntryAt(lines, LineEntry, j);
    }
  }

  /** When a key occurs in several entries, the value of the last one wins. */
  lemma {:induction false} LastEntryWins(entries: seq<Entry>, j: nat, key: string, value: string)
    requires j < |entries| && entries[j] == Some((key, value))
    requires forall k :: j < k < |entries| ==> entries[k].None? || entries[k].value.0 != key
    ensures key in Collect(entries) && Collect(entries)[key] == value
  {
    var init := entries[..|entries| - 1];
    if j < |entries| - 1 {
      assert init[j] == entries[j];
      LastEntryWins(init, j, key, value);
    }
  }

  /** When a key occurs on several lines, the value of its last line wins. */
  lemma LastOccurrenceWins(lines: seq<string>, j: nat, key: string, value: string)
    requires j < |lines| && LineEntry(lines[j]) == Some((key, value))
    requires forall k :: j < k < |lines| ==> LineEntry(lines[k]).None? || LineEntry(lines[k]).value.0 != key
    ensures key in ParsedFrom(lines) && ParsedFrom(lines)[key] == value
  {
    forall k | j <= k < |lines| {
      EntryAt(lines, LineEntry, k);
    }
    LastEntryWins(EntriesBy(lines, LineEntry), j, key, value);
  }

  /** A line is split at its first colon only: the key has none, the value may have any number. */
  lemma SplitAtFirstColon(key: string, value: string)
    requires ':' !in key
    ensures LineEntry(key + [':'] + value) == Some((Strip(key), Strip(value)))
  {
    var line := key + [':'] + value;
    FirstIndexAfterFreePrefix(key, ':', value);
    assert line[..|key|] == key;
    assert line[|key| + 1..] == value;
  }

  /** Nothing is parsed exactly when no line has a colon: from a colon on a line, a key. */
  lemma SomethingParsedFromAColon(lines: seq<string>, j: nat)
    requires j < |lines| && ':' in lines[j]
    ensures ParsedFrom(lines) != map[]
  {
    var key := LineEntry(lines[j]).value.0;
    ParsedKeys(lines, key);
    assert key in ParsedFrom(lines);
  }

  /** Nothing is parsed exactly when no line has a colon: without a colon, no key. */
  lemma NothingParsedWithoutColons(lines: seq<string>)
    requires forall j :: 0 <= j < |lines| ==> ':' !in lines[j]
    ensures ParsedFrom(lines) == map[]
  {
    forall key | key in ParsedFrom(lines) ensures false {
      ParsedKeys(lines, key);
    }
  }

  /** A `key: value` line parses to the key and the value when neither has surrounding whitespace. */
  lemma FieldLineEntry(key: string, value: string)
    requires IsKey(key) && IsStripped(value)
    ensures LineEntry(key + ": " + value) == Some((key, value))
  {
    var line, rest := key + ": " + value, " " + value;
    calc {
      LineEntry(line);
      { assert line == key + [':'] + rest; }
      LineEntry(key + [':'] + rest);
      { SplitAtFirstColon(key, rest); }
      Some((Strip(key), Strip(rest)));
      { StripAfterSpaces(" ", value); }
      Some((key, value));
    }
  }

  /** The entries the five lines of a payload are read as. */
  function FieldEntries(b: QrBook): seq<Entry>
  {
    [Some((TitleKey, b.title)), Some((AuthorKey, b.author)), Some((IsbnKey, b.isbn)),
     Some((CategoryKey, b.category)), Some((StatusKey, b.status))]
  }

  /** A key a payload line can carry: no colon, no surrounding whitespace. */
  predicate IsKey(key: string)
  {
    ':' !in key && IsStripped(key)
  }

  /** The five keys of a payload are such keys. */
  lemma PayloadKeysAreKeys()
    ensures IsKey(TitleKey) && IsKey(AuthorKey) && IsKey(IsbnKey) && IsKey(CategoryKey) && IsKey(StatusKey)
  {
    assert TitleKey == ['書', '名'];
    assert AuthorKey == ['作', '者'];
    assert IsbnKey == ['I', 'S', 'B', 'N'];
    assert CategoryKey == ['分', '類'];
    assert StatusKey == ['狀', '態'];
  }

  /** Each of the five lines is read as its key and its field. */
  lemma FieldLinesAreRead(b: QrBook)
    requires FieldsStripped(b)
    ensures EntriesBy(FieldLines(b), LineEntry) == FieldEntries(b)
  {
    var lines, e := FieldLines(b), FieldEntries(b);
    PayloadKeysAreKeys();
    forall i | 0 <= i < 5 ensures LineEntry(lines[i]) == e[i] {
      if i == 0 {
        FieldLineEntry(TitleKey, b.title);
      } else if i == 1 {
        FieldLineEntry(AuthorKey, b.author);
      } else if i == 2 {
        FieldLineEntry(IsbnKey, b.isbn);
      } else if i == 3 {
        FieldLineEntry(CategoryKey, b.category);
      } else {
        FieldLineEntry(StatusKey, b.status);
      }
    }
    EntriesOfReadLines(lines, LineEntry, e);
  }

  /** Collecting the five entries gives one key per field. */
  lemma CollectFieldEntries(b: QrBook)
    ensures Collect(FieldEntries(b)) ==
            map[TitleKey := b.title, AuthorKey := b.author, IsbnKey := b.isbn,
                CategoryKey := b.category, StatusKey := b.status]
  {
    var e := FieldEntries(b);
    assert e[..1][..0] == [];
    assert Collect(e[..1]) == map[TitleKey := b.title];
    assert e[..2][..1] == e[..1];
    assert Collect(e[..2]) == map[TitleKey := b.title, AuthorKey := b.author];
    assert e[..3][..2] == e[..2];
    assert Collect(e[..3]) == map[TitleKey := b.title, AuthorKey := b.author, IsbnKey := b.isbn];
    assert e[..4][..3] == e[..3];
    assert e[..5][..4] == e[..4];
    assert e[..5] == e;
  }

  /**
   * Round trip: a book whose fields hold no newline and no surrounding
   * whitespace is read back as exactly its five key/field pairs.
   */
  lemma RoundTrip(b: QrBook)
    requires FieldsFitOnALine(b) && FieldsStripped(b)
    ensures ParsedFrom(Split(Serialize(b), '\n')) ==
            map[TitleKey := b.title, AuthorKey := b.author, IsbnKey := b.isbn,
                CategoryKey := b.category, StatusKey := b.status]
  {
    SerializeHasFiveLines(b);
    FieldLinesAreRead(b);
    CollectFieldEntries(b);
  }
}
