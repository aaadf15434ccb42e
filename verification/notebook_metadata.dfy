/**
 * Normalising the metadata of notebook cells: a top-level `id` moves into
 * the cell's metadata, and every cell's metadata gets a `language` entry.
 * The notebook's JSON is modelled as a value; reading and writing the file
 * are left to the caller, who writes back only when `Fix` reports a change.
 */
module NotebookMetadata {

  datatype Json =
    | JNull
    | JBool(b: bool)
    | JNum(x: real)
    | JStr(s: string)
    | JArray(items: seq<Json>)
    | JObject(fields: map<string, Json>)

  /** A notebook cell: a JSON object. */
  type Cell = map<string, Json>

  /** The cell's metadata dictionary, or an empty one when it is absent or not a dictionary. */
  function MetadataOf(cell: Cell): (md: map<string, Json>)
    ensures "metadata" in cell && cell["metadata"].JObject? ==> md == cell["metadata"].fields
  {
    if "metadata" in cell && cell["metadata"].JObject? then cell["metadata"].fields else map[]
  }

  /** The language a cell is labelled with: python for code cells, markdown for every other kind. */
  function LanguageFor(cell: Cell): (lang: Json)
    ensures lang == JStr("python") <==> "cell_type" in cell && cell["cell_type"] == JStr("code")
  {
    if "cell_type" in cell && cell["cell_type"] == JStr("code") then JStr("python") else JStr("markdown")
  }

  /** Whether a cell's metadata is missing or not a dictionary. */
  predicate BadMetadata(cell: Cell)
  {
    "metadata" !in cell || !cell["metadata"].JObject?
  }

  /** Whether the cell has a top-level id its metadata lacks. */
  predicate StrayId(cell: Cell)
  {
    "id" in cell && "id" !in MetadataOf(cell)
  }

  /** Whether processing the cell changes anything. */
  predicate NeedsFix(cell: Cell)
  {
    BadMetadata(cell) || StrayId(cell) || "language" !in MetadataOf(cell)
  }

  /** The cell after normalisation. */
  function FixedCell(cell: Cell): (fixed: Cell)
    ensures "metadata" in fixed && fixed["metadata"].JObject? && "language" in fixed["metadata"].fields
    ensures "id" in cell ==> "id" in fixed["metadata"].fields
  {
    var md := MetadataOf(cell);
    var md1 := if StrayId(cell) then md["id" := cell["id"]] else md;
    var md2 := if "language" in md1 then md1 else md1["language" := LanguageFor(cell)];
    var top := if StrayId(cell) then cell - {"id"} else cell;
    top["metadata" := JObject(md2)]
  }

  /**
   * What normalisation does to a cell: its metadata becomes a dictionary
   * that keeps every old entry, gains a stray top-level id (which leaves the
   * top level) and gains a language when it had none; no other entry
   * appears, and every other top-level key is untouched, a top-level id the
   * metadata already has included.
   */
  lemma FixedCellShape(cell: Cell)
    ensures var fixed := FixedCell(cell);
      && "metadata" in fixed && fixed["metadata"].JObject?
      && var md := fixed["metadata"].fields;
      && (forall k :: k in MetadataOf(cell) ==> k in md && md[k] == MetadataOf(cell)[k])
      && (StrayId(cell) ==> "id" !in fixed && "id" in md && md["id"] == cell["id"])
      && (!StrayId(cell) ==> ("id" in fixed <==> "id" in cell))
      && (!StrayId(cell) && "id" in cell ==> fixed["id"] == cell["id"])
      && "language" in md
      && ("language" !in MetadataOf(cell) ==> md["language"] == LanguageFor(cell))
      && (forall k :: k in md ==> k in MetadataOf(cell) || (k == "id" && StrayId(cell))
                                  || (k == "language" && "language" !in MetadataOf(cell)))
      && (forall k :: k in cell && k != "metadata" && k != "id" ==> k in fixed && fixed[k] == cell[k])
      && (forall k :: k in fixed ==> k in cell || k == "metadata")
  {
  }

  /** A cell that needs no fix is left exactly as it was, and one that does is changed. */
  lemma NeedsFixIffChanged(cell: Cell)
    ensures NeedsFix(cell) <==> FixedCell(cell) != cell
  {
    if !NeedsFix(cell) {
      assert FixedCell(cell) == cell;
    } else if BadMetadata(cell) {
      assert "metadata" !in cell || FixedCell(cell)["metadata"] != cell["metadata"];
    } else if StrayId(cell) {
      assert "id" !in FixedCell(cell);
    } else {
      assert "language" in FixedCell(cell)["metadata"].fields;
    }
  }

  /** Normalising twice is normalising once. */
  lemma FixedCellIdempotent(cell: Cell)
    ensures !NeedsFix(FixedCell(cell))
    ensures FixedCell(FixedCell(cell)) == FixedCell(cell)
  {
    NeedsFixIffChanged(FixedCell(cell));
  }

  /** Normalising a list of cells changes it exactly when some cell needs a fix. */
  lemma ChangedIffDiffer(before: seq<Cell>, after: seq<Cell>)
    requires |before| == |after|
    requires forall i :: 0 <= i < |before| ==> after[i] == FixedCell(before[i])
    ensures (exists i :: 0 <= i < |before| && NeedsFix(before[i])) <==> after != before
  {
    if exists i :: 0 <= i < |before| && NeedsFix(before[i]) {
      var i :| 0 <= i < |before| && NeedsFix(before[i]);
      NeedsFixIffChanged(before[i]);
      assert after[i] != before[i];
    } else {
      forall i | 0 <= i < |before|
        ensures after[i] == before[i]
      {
        NeedsFixIffChanged(before[i]);
      }
    }
  }

  /** The loop body for one cell: the normalised cell, and whether it differs. */
  method FixOne(cell: Cell) returns (fixed: Cell, changed: bool)
    ensures fixed == FixedCell(cell)
    ensures changed == NeedsFix(cell)
  {
    fixed := cell;
    changed := false;
    var md: map<string, Json>;
    if "metadata" !in fixed || !fixed["metadata"].JObject? {
      md := map[];
      fixed := fixed["metadata" := JObject(md)];
      changed := true;
    } else {
      md := fixed["metadata"].fields;
    }
    if "id" in fixed && "id" !in md {
      md := md["id" := fixed["id"]];
      fixed := (fixed - {"id"})["metadata" := JObject(md)];
      changed := true;
    }
    if "language" !in md {
      var lang := if "cell_type" in fixed && fixed["cell_type"] == JStr("code") then JStr("python") else JStr("markdown");
      md := md["language" := lang];
      fixed := fixed["metadata" := JObject(md)];
      changed := true;
    }
  }

  /**
   * Normalises every cell in place; reports whether any cell changed, which
   * is when the notebook has to be written back. A notebook without a
   * `cells` entry is an empty array.
   */
  method Fix(cells: array<Cell>) returns (changed: bool)
    modifies cells
    ensures forall i :: 0 <= i < cells.Length ==> cells[i] == FixedCell(old(cells[i]))
    ensures changed <==> exists i :: 0 <= i < cells.Length && NeedsFix(old(cells[i]))
    ensures changed <==> cells[..] != old(cells[..])
  {
    changed := false;
    for i := 0 to cells.Length
      invariant forall j :: 0 <= j < i ==> cells[j] == FixedCell(old(cells[j]))
      invariant forall j :: i <= j < cells.Length ==> cells[j] == old(cells[j])
      invariant changed <==> exists j :: 0 <= j < i && NeedsFix(old(cells[j]))
    {
      var fixed, cellChanged := FixOne(cells[i]);
      cells[i] := fixed;
      changed := changed || cellChanged;
    }
    ChangedIffDiffer(old(cells[..]), cells[..]);
  }
}
