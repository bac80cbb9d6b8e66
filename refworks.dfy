/** The record-assembly loop of `parse_refworks`
    (gitopenlib/utils/parser.py): RefWorks export rows of the form
    `TAG value` are gathered into one record per reference, and a record is
    complete when its `DS` row is read. */
module RefWorks {
  import opened Wrappers
  import opened Seqs
  import opened PyStr
  import opened Basics

  /** A stored value: the rest of the row, or for list tags its pieces. */
  datatype Field = Text(s: string) | Parts(ps: seq<string>)

  /** One reference, tag to value (the dict that `json.dumps` renders). */
  type Record = map<string, Field>

  /** The two loop variables: finished records and the record being read. */
  datatype State = State(data: seq<Record>, item: Record)

  /** Author, address and keyword rows hold `;`-separated lists. */
  predicate IsListTag(flag: string) {
    flag == "A1" || flag == "AD" || flag == "K1"
  }

  /** `str` on a string. */
  function Str(s: string): string { s }

  /** `remove_0_str(value.split(";"))`. */
  function Pieces(value: string): seq<string> {
    RemoveEmpty(Split(value, ';'), Str)
  }

  /** The value stored for `flag`. */
  function FieldOf(flag: string, value: string): Field {
    if IsListTag(flag) then Parts(Pieces(value)) else Text(value)
  }

  /** The tag of a row: its first space-separated word, stripped. */
  function Tag(row: string): string {
    Strip(SplitOnce(Strip(row), ' ')[0])
  }

  /** The rows that raise `IndexError`: a two-character tag and nothing
      after it. */
  predicate IsBadRow(row: string) {
    var line := Strip(row);
    |line| == 2 && ' ' !in line
  }

  /** One pass of the loop body. */
  function Step(st: State, row: string): Result<State> {
    var line := Strip(row);
    if line == "" then Ok(st)
    else
      var subs := SplitOnce(line, ' ');
      var flag := Strip(subs[0]);
      if |flag| != 2 then Ok(st)
      else if |subs| < 2 then Err(IndexOutOfRange)
      else
        var item := st.item[subs[0] := FieldOf(flag, subs[1])];
        if flag == "DS" then Ok(State(st.data + [item], map[]))
        else Ok(State(st.data, item))
  }

  /** The state after the loop has read `rows`, or the error it raised. */
  function Feed(rows: seq<string>): Result<State> {
    if |rows| == 0 then Ok(State([], map[]))
    else match Feed(rows[..|rows| - 1])
      case Err(e) => Err(e)
      case Ok(st) => Step(st, rows[|rows| - 1])
  }

  /** The loop of `parse_refworks` over the rows of one file, returning the
      finished records. */
  method ParseRows(rows: seq<string>) returns (r: Result<seq<Record>>)
    ensures r == match Feed(rows) case Ok(st) => Ok(st.data) case Err(e) => Err(e)
  {
    var data: seq<Record> := [];
    var item: Record := map[];
    var i := 0;
    while i < |rows|
      invariant 0 <= i <= |rows|
      invariant Feed(rows[..i]) == Ok(State(data, item))
    {
      assert rows[..i + 1] == rows[..i] + [rows[i]];
      FeedSnoc(rows[..i], rows[i]);
      var row := Strip(rows[i]);
      if row != "" {
        var subs := SplitOnce(row, ' ');
        var flag := Strip(subs[0]);
        if |flag| == 2 {
          if |subs| < 2 {
            FeedErrPersists(rows, i + 1);
            return Err(IndexOutOfRange);
          }
          var value := if IsListTag(flag) then Parts(RemoveEmpty(Split(subs[1], ';'), Str)) else Text(subs[1]);
          item := item[subs[0] := value];
          if flag == "DS" {
            data := data + [item];
            item := map[];
          }
        }
      }
      i := i + 1;
    }
    assert rows[..|rows|] == rows;
    return Ok(data);
  }

  /** Once the loop has raised, reading more rows does not matter. */
  lemma {:induction false} FeedErrPersists(rows: seq<string>, k: nat)
    requires k <= |rows| && Feed(rows[..k]).Err?
    ensures Feed(rows) == Feed(rows[..k])
  {
    if k < |rows| {
      var init := rows[..|rows| - 1];
      assert init[..k] == rows[..k];
      FeedErrPersists(init, k);
    } else {
      assert rows[..k] == rows;
    }
  }

  /** A blank row is skipped. */
  lemma StepBlank(st: State, row: string)
    requires Strip(row) == ""
    ensures Step(st, row) == Ok(st)
  {
  }

  /** A row whose tag is not two characters long changes nothing. */
  lemma StepOtherTag(st: State, row: string)
    requires |Tag(row)| != 2
    ensures Step(st, row) == Ok(st)
  {
  }

  /** A row raises exactly when it is a bare two-character tag. */
  lemma StepFails(st: State, row: string)
    ensures Step(st, row).Err? <==> IsBadRow(row)
    ensures Step(st, row).Err? ==> Step(st, row) == Err(IndexOutOfRange)
  {
    var line := Strip(row);
    StripIdempotent(row);
    if line != "" && ' ' !in line {
      assert SplitOnce(line, ' ') == [line];
    }
  }

  /** A well-formed row `TAG value` with a two-character tag stores its
      value under the tag, replacing an earlier one and leaving the other
      tags alone; a `DS` row finishes the record, which is appended with
      its `DS` field, and the next record starts empty. */
  lemma StepTagged(st: State, row: string, tag: string, value: string)
    requires |tag| == 2 && NoSpace(tag) && Strip(row) == tag + " " + value
    ensures Step(st, row).Ok?
    ensures var item := st.item[tag := FieldOf(tag, value)];
      Step(st, row).value == if tag == "DS" then State(st.data + [item], map[]) else State(st.data, item)
    ensures tag != "DS" ==> var s := Step(st, row).value;
      s.item.Keys == st.item.Keys + {tag} && s.item[tag] == FieldOf(tag, value) &&
      forall k :: k in st.item && k != tag ==> s.item[k] == st.item[k]
  {
    assert ' ' !in tag by {
      forall i | 0 <= i < |tag| ensures tag[i] != ' ' {
        assert !IsSpace(tag[i]);
      }
    }
    assert tag + " " + value == tag + [' '] + value;
    SplitOnceAt(tag, value, ' ');
    StripNoSpace(tag);
  }

  /** The pieces of a list value are the non-empty `;`-separated parts, in
      order and with their spaces kept. */
  lemma PiecesSpec(value: string)
    ensures forall i :: 0 <= i < |Pieces(value)| ==>
      |Pieces(value)[i]| > 0 && ';' !in Pieces(value)[i] && Pieces(value)[i] in Split(value, ';')
    ensures IsSubseq(Pieces(value), Split(value, ';'))
    ensures forall p :: p in Split(value, ';') && p != "" ==> p in Pieces(value)
  {
    var parts := Split(value, ';');
    RemoveEmptySpec(parts, Str);
    SplitPieces(value, ';');
  }

  /** Pieces are not trimmed. */
  lemma PiecesExample()
    ensures Pieces("a;; b") == ["a", " b"]
  {
    var ps := ["a", "", " b"];
    assert Join(ps, ';') == "a;; b";
    JoinSplit(ps, ';');
    assert Filter(ps, x => |Str(x)| != 0) == ["a"] + Filter(ps[1..], x => |Str(x)| != 0);
  }

  /** The loop raises exactly when some row is a bare two-character tag. */
  lemma {:induction false} FeedFails(rows: seq<string>)
    ensures Feed(rows).Err? <==> HasBadRow(rows)
    ensures Feed(rows).Err? ==> Feed(rows) == Err(IndexOutOfRange)
  {
    if |rows| > 0 {
      var init := rows[..|rows| - 1];
      FeedFails(init);
      AnyBadSnoc(rows);
      if Feed(init).Ok? {
        StepFails(Feed(init).value, rows[|rows| - 1]);
      }
    }
  }

  /** Some row is a bare two-character tag. */
  predicate HasBadRow(rows: seq<string>) {
    exists i :: 0 <= i < |rows| && IsBadRow(rows[i])
  }

  lemma AnyBadSnoc(rows: seq<string>)
    requires |rows| > 0
    ensures HasBadRow(rows) <==> HasBadRow(rows[..|rows| - 1]) || IsBadRow(rows[|rows| - 1])
  {
    var init := rows[..|rows| - 1];
    if HasBadRow(rows) {
      var i :| 0 <= i < |rows| && IsBadRow(rows[i]);
      if i < |init| {
        assert init[i] == rows[i];
      }
    }
    if HasBadRow(init) {
      var i :| 0 <= i < |init| && IsBadRow(init[i]);
      assert rows[i] == init[i];
    }
  }

  /** Records once finished are never changed: the records after a prefix
      of the rows begin the records after all of them. */
  lemma {:induction false} FeedRecordsGrow(rows: seq<string>, k: nat)
    requires k <= |rows| && Feed(rows).Ok?
    ensures Feed(rows[..k]).Ok? && Feed(rows[..k]).value.data <= Feed(rows).value.data
  {
    if k < |rows| {
      var init := rows[..|rows| - 1];
      assert init[..k] == rows[..k];
      FeedRecordsGrow(init, k);
      StepData(Feed(init).value, rows[|rows| - 1]);
    } else {
      assert rows[..k] == rows;
    }
  }

  /** A step only ever appends, and only at a `DS` row. */
  lemma StepData(st: State, row: string)
    requires Step(st, row).Ok?
    ensures st.data <= Step(st, row).value.data
    ensures Tag(row) != "DS" ==> Step(st, row).value.data == st.data
    ensures Tag(row) == "DS" ==> |Step(st, row).value.data| == |st.data| + 1 && Step(st, row).value.item == map[]
  {
  }

  /** Fields read after the last `DS` row are never emitted: rows with no
      `DS` tag leave the finished records as they were. */
  lemma {:induction false} FeedTrailing(rows: seq<string>, tail: seq<string>)
    requires Feed(rows + tail).Ok?
    requires forall i :: 0 <= i < |tail| ==> Tag(tail[i]) != "DS"
    ensures Feed(rows).Ok? && Feed(rows + tail).value.data == Feed(rows).value.data
  {
    if |tail| == 0 {
      assert rows + tail == rows;
    } else {
      var tail', last := tail[..|tail| - 1], tail[|tail| - 1];
      ConcatSnoc(rows, tail);
      FeedSnoc(rows + tail', last);
      assert forall i :: 0 <= i < |tail'| ==> tail'[i] == tail[i];
      FeedTrailing(rows, tail');
      StepData(Feed(rows + tail').value, last);
    }
  }

  lemma ConcatSnoc<T>(s: seq<T>, t: seq<T>)
    requires |t| > 0
    ensures s + t == (s + t[..|t| - 1]) + [t[|t| - 1]]
  {
    assert t == t[..|t| - 1] + [t[|t| - 1]];
  }

  /** Reading one more row is one more step. */
  lemma FeedSnoc(rows: seq<string>, row: string)
    ensures Feed(rows + [row]) == match Feed(rows) case Err(e) => Err(e) case Ok(st) => Step(st, row)
  {
    assert (rows + [row])[..|rows|] == rows;
  }
}
