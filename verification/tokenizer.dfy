/**
 * The per-line tokenizer shared by the image and PDF extractors of the bill
 * parser.  A line has its commas and tabs turned into spaces and is split
 * on whitespace runs; with at least three tokens, the last is read as the
 * billed price, the one before it as the integer quantity, and the leading
 * tokens, joined by single spaces, form the item name.  A line that does not
 * fit this shape yields no record.
 */
module Tokenizer {
  import opened Options
  import opened PyText
  import opened Numbers

  /** One extracted bill line: the `{"item", "quantity", "billed_mrp"}` row. */
  datatype BillRecord = BillRecord(item: string, quantity: int, billedMrp: real)

  /** An item name as the tokenizer produces it: single-spaced (non-empty,
      no whitespace but single inner spaces) and without commas. */
  predicate CleanItem(s: string) {
    SingleSpaced(s) && ',' !in s
  }

  /** Tokens as the tokenizer produces them: `str.split()` words without commas. */
  predicate CommaFreeWords(ts: seq<string>) {
    AllWords(ts) && forall i :: 0 <= i < |ts| ==> ',' !in ts[i]
  }

  /** `line.replace(",", " ").replace("\t", " ")`: commas and tabs become
      spaces and every other character stays where it is. */
  function Separate(line: string): (r: string)
    ensures |r| == |line|
    ensures ',' !in r && '\t' !in r
    ensures forall i :: 0 <= i < |r| ==> r[i] == line[i] || (r[i] == ' ' && line[i] in ",\t")
  {
    seq(|line|, i requires 0 <= i < |line| => if line[i] == ',' || line[i] == '\t' then ' ' else line[i])
  }

  lemma SeparateNoOp(line: string)
    requires ',' !in line && '\t' !in line
    ensures Separate(line) == line
  {
  }

  lemma {:induction false} RemoveSpaceKeeps(s: string, c: char)
    requires c in RemoveSpace(s)
    ensures c in s
    decreases |s|
  {
    if s != [] && !(c in (if IsSpace(s[0]) then [] else [s[0]])) {
      RemoveSpaceKeeps(s[1..], c);
    }
  }

  lemma {:induction false} ConcatHolds(ws: seq<string>, i: nat, c: char)
    requires i < |ws| && c in ws[i]
    ensures c in Concat(ws)
    decreases i
  {
    if i > 0 {
      ConcatHolds(ws[1..], i - 1, c);
    }
  }

  /** The tokens of a line: `str.split()` words, none holding a comma. */
  function Tokens(line: string): (ts: seq<string>)
    ensures CommaFreeWords(ts)
  {
    var ts := Split(Separate(line));
    forall i | 0 <= i < |ts|
      ensures ',' !in ts[i]
    {
      if ',' in ts[i] {
        ConcatHolds(ts, i, ',');
        RemoveSpaceKeeps(Separate(line), ',');
      }
    }
    ts
  }

  /** The body of the per-line `try` block on a token list: with at least
      three tokens whose last reads as a float and whose second-to-last reads
      as an int, the record of those values and the leading tokens' join. */
  function RecordOf(parts: seq<string>): (r: Option<BillRecord>)
    ensures r.Some? <==>
      && |parts| >= 3
      && ParseInt(parts[|parts| - 2]).Some?
      && ParseFloat(parts[|parts| - 1]).Some?
    ensures r.Some? ==>
      && ParseInt(parts[|parts| - 2]) == Some(r.value.quantity)
      && ParseFloat(parts[|parts| - 1]) == Some(r.value.billedMrp)
    ensures r.Some? && CommaFreeWords(parts) ==>
      CleanItem(r.value.item) && Split(r.value.item) == parts[..|parts| - 2]
  {
    if |parts| < 3 then None
    else
      var lead := parts[..|parts| - 2];
      var item := Strip(Join(lead));
      LeadingWordsClean(parts);
      match (ParseInt(parts[|parts| - 2]), ParseFloat(parts[|parts| - 1]))
      case (Some(q), Some(p)) => Some(BillRecord(item, q, p))
      case _ => None
  }

  /** The item made of comma-free leading tokens is clean and re-tokenizes
      to them. */
  lemma LeadingWordsClean(parts: seq<string>)
    requires |parts| >= 3
    ensures var item := Strip(Join(parts[..|parts| - 2]));
      CommaFreeWords(parts) ==> CleanItem(item) && Split(item) == parts[..|parts| - 2]
  {
    if CommaFreeWords(parts) {
      var lead := parts[..|parts| - 2];
      assert AllWords(lead) && lead != [];
      assert forall i :: 0 <= i < |lead| ==> ',' !in lead[i];
      JoinAvoids(lead, ',');
      SplitJoin(lead);
    }
  }

  /** The PDF extractor's tokenizer (backend.py, `pdf_to_dataframe`).  An
      item it yields is clean; when it yields one, and what the other fields
      are, is stated by `ParseLineFields`. */
  function ParseLine(line: string): (r: Option<BillRecord>)
    ensures r.Some? ==> CleanItem(r.value.item)
  {
    RecordOf(Tokens(line))
  }

  /** A line yields a record exactly when it has at least three tokens, the
      second-to-last reads as an int and the last as a float.  The record's
      item re-tokenizes to all but the last two tokens, its quantity is the
      `int` of the second-to-last token and its price the `float` of the last. */
  lemma ParseLineFields(line: string)
    ensures |Tokens(line)| < 3 ==> ParseLine(line).None?
    ensures ParseLine(line).Some? <==>
      var ts := Tokens(line);
      |ts| >= 3 && ParseInt(ts[|ts| - 2]).Some? && ParseFloat(ts[|ts| - 1]).Some?
    ensures ParseLine(line).Some? ==>
      var ts := Tokens(line);
      var r := ParseLine(line).value;
      && Split(r.item) == ts[..|ts| - 2]
      && ParseInt(ts[|ts| - 2]) == Some(r.quantity)
      && ParseFloat(ts[|ts| - 1]) == Some(r.billedMrp)
  {
  }

  /** The image extractor's tokenizer (backend.py, `ocr_to_dataframe`), which
      also strips every token.  It agrees with the PDF tokenizer on every
      line, because split tokens carry no whitespace to strip. */
  function ParseLineOcr(line: string): (r: Option<BillRecord>)
    ensures r == ParseLine(line)
  {
    var ts := Tokens(line);
    var parts := seq(|ts|, i requires 0 <= i < |ts| => Strip(ts[i]));
    assert parts == ts by {
      forall i | 0 <= i < |ts|
        ensures parts[i] == ts[i]
      {
        assert IsWord(ts[i]);
      }
    }
    RecordOf(parts)
  }

  /** Commas and tabs act exactly like spaces: a line parses as the line with
      each of them replaced by a space. */
  lemma SeparatorsAreSpaces(line: string)
    ensures ParseLine(Separate(line)) == ParseLine(line)
  {
    assert Separate(Separate(line)) == Separate(line);
  }

  lemma JoinSnoc(ws: seq<string>, w: string)
    requires ws != []
    ensures Join(ws + [w]) == Join(ws) + " " + w
    decreases |ws|
  {
    if |ws| == 1 {
      assert (ws + [w])[1..] == [w];
    } else {
      assert (ws + [w])[1..] == ws[1..] + [w];
      JoinSnoc(ws[1..], w);
    }
  }

  /** The text of a bill line: item, quantity and price separated by spaces. */
  function LineText(item: string, quantity: int, priceText: string): string {
    item + " " + IntText(quantity) + " " + priceText
  }

  /** A line that is the join of comma-free words tokenizes to those words. */
  lemma TokensOfJoin(line: string, ws: seq<string>)
    requires CommaFreeWords(ws)
    requires line == Join(ws)
    ensures Tokens(line) == ws
  {
    JoinAvoids(ws, ',');
    assert '\t' !in line by {
      if ws != [] {
        assert RemoveSpace(line) == Concat(ws);
        assert IsSpace('\t');
      }
    }
    SeparateNoOp(line);
    SplitJoin(ws);
  }

  /** Joining comma-free words gives a clean item name. */
  lemma CleanJoin(ws: seq<string>)
    requires CommaFreeWords(ws) && ws != []
    ensures CleanItem(Join(ws))
  {
    JoinAvoids(ws, ',');
  }

  lemma {:induction false} JoinLineWords(item: string, q: string, p: string)
    requires SingleSpaced(item)
    ensures Split(item) != []
    ensures Join(Split(item) + [q, p]) == item + " " + q + " " + p
  {
    var lead := Split(item);
    assert lead != [] by {
      assert !IsSpace(item[0]);
    }
    JoinSplit(item);
    JoinSnoc(lead, q);
    JoinSnoc(lead + [q], p);
    assert lead + [q] + [p] == lead + [q, p];
  }

  lemma CleanItemHasNoTab(item: string)
    requires CleanItem(item)
    ensures ',' !in item && '\t' !in item
  {
    assert IsSpace('\t');
  }

  /** The tokens of a written line are the item's words, then the quantity
      and the price. */
  lemma {:induction false} TokensOfLineText(item: string, q: string, p: string)
    requires CleanItem(item)
    requires IsWord(q) && IsWord(p)
    requires ',' !in q && '\t' !in q && ',' !in p && '\t' !in p
    ensures Tokens(item + " " + q + " " + p) == Split(item) + [q, p]
  {
    var line := item + " " + q + " " + p;
    var ws := Split(item) + [q, p];
    JoinLineWords(item, q, p);
    CleanItemHasNoTab(item);
    SeparateNoOp(line);
    assert AllWords(ws);
    SplitJoin(ws);
  }

  /** A line of a clean item and two more tokens yields a record exactly
      when the first token reads as an int and the second as a float, and
      that record carries the item unchanged. */
  lemma ParseLineOfWords(item: string, q: string, p: string)
    requires CleanItem(item)
    requires IsWord(q) && IsWord(p)
    requires ',' !in q && '\t' !in q && ',' !in p && '\t' !in p
    ensures ParseLine(item + " " + q + " " + p) ==
      if ParseInt(q).Some? && ParseFloat(p).Some?
      then Some(BillRecord(item, ParseInt(q).value, ParseFloat(p).value))
      else None
  {
    TokensOfLineText(item, q, p);
    RecordOfItemWords(item, q, p);
  }

  lemma RecordOfItemWords(item: string, q: string, p: string)
    requires SingleSpaced(item)
    ensures RecordOf(Split(item) + [q, p]) ==
      if ParseInt(q).Some? && ParseFloat(p).Some?
      then Some(BillRecord(item, ParseInt(q).value, ParseFloat(p).value))
      else None
  {
    var lead := Split(item);
    var ws := lead + [q, p];
    assert lead != [] by {
      assert !IsSpace(item[0]);
    }
    assert ws[..|ws| - 2] == lead;
    assert ws[|ws| - 2] == q && ws[|ws| - 1] == p;
    JoinSplit(item);
  }

  /** `str()` of an integer is a single comma- and tab-free token. */
  lemma IntTextIsToken(i: int)
    ensures IsWord(IntText(i)) && ',' !in IntText(i) && '\t' !in IntText(i)
  {
    var q := IntText(i);
    assert forall k :: 0 <= k < |q| ==> !IsSpace(q[k]) && q[k] != ',' && q[k] != '\t';
  }

  /** A written price is a single comma- and tab-free token. */
  lemma PriceTextIsToken(negative: bool, whole: nat, frac: string)
    requires AllDigits(frac)
    ensures var p := PriceText(negative, whole, frac);
      IsWord(p) && ',' !in p && '\t' !in p
  {
    var p := PriceText(negative, whole, frac);
    assert forall k :: 0 <= k < |p| ==> !IsSpace(p[k]) && p[k] != ',' && p[k] != '\t';
  }

  /** Writing a record as `item quantity price` and tokenizing the line gives
      the record back, for every clean item, every integer quantity and every
      decimal price. */
  lemma ParseLineText(item: string, quantity: int, negative: bool, whole: nat, frac: string)
    requires CleanItem(item)
    requires AllDigits(frac)
    ensures ParseLine(LineText(item, quantity, PriceText(negative, whole, frac)))
         == Some(BillRecord(item, quantity,
                            if negative then -DecimalValue(whole, frac) else DecimalValue(whole, frac)))
  {
    IntTextIsToken(quantity);
    PriceTextIsToken(negative, whole, frac);
    ParseIntText(quantity);
    ParseFloatPriceText(negative, whole, frac);
    ParseLineOfWords(item, IntText(quantity), PriceText(negative, whole, frac));
  }

  /** Replacing separators works character by character. */
  lemma SeparateAppend(a: string, b: string)
    ensures Separate(a + b) == Separate(a) + Separate(b)
  {
    assert forall i :: 0 <= i < |a| ==> (a + b)[i] == a[i];
    assert forall i :: |a| <= i < |a + b| ==> (a + b)[i] == b[i - |a|];
  }

  /** Text made only of separators: whitespace (tabs included) and commas. */
  predicate SeparatorsOnly(w: string) {
    forall i :: 0 <= i < |w| ==> IsSpace(w[i]) || w[i] == ','
  }

  lemma SeparateSeparators(w: string)
    requires SeparatorsOnly(w)
    ensures AllSpace(Separate(w))
  {
    var r := Separate(w);
    forall i | 0 <= i < |r|
      ensures IsSpace(r[i])
    {
      assert IsSpace(' ');
    }
  }

  /** A run of separators of any length and mix ("   ", ", ", "\t,") is a
      single split point: the tokens on either side are those of each side
      alone, and the line parses as if the run were one space. */
  lemma SeparatorRun(a: string, w: string, b: string)
    requires w != [] && SeparatorsOnly(w)
    ensures Tokens(a + w + b) == Tokens(a) + Tokens(b)
    ensures Tokens(a + w + b) == Tokens(a + " " + b)
    ensures ParseLine(a + w + b) == ParseLine(a + " " + b)
  {
    SeparateAppend(a + w, b);
    SeparateAppend(a, w);
    SeparateSeparators(w);
    SplitAtSpaceRun(Separate(a), Separate(w), Separate(b));
    assert SeparatorsOnly(" ") by {
      assert IsSpace(' ');
    }
    SeparateAppend(a + " ", b);
    SeparateAppend(a, " ");
    SeparateSeparators(" ");
    SplitAtSpaceRun(Separate(a), Separate(" "), Separate(b));
  }

  /** Separators at either end of a line give no token. */
  lemma SeparatorPadding(w: string, line: string, v: string)
    requires SeparatorsOnly(w) && SeparatorsOnly(v)
    ensures Tokens(w + line + v) == Tokens(line)
    ensures ParseLine(w + line + v) == ParseLine(line)
  {
    SeparateAppend(w + line, v);
    SeparateAppend(w, line);
    SeparateSeparators(w);
    SeparateSeparators(v);
    assert Separate(w) + Separate(line) + Separate(v) == Separate(w) + (Separate(line) + Separate(v));
    SplitSpacePrefix(Separate(w), Separate(line) + Separate(v));
    SplitSpaceSuffix(Separate(line), Separate(v));
  }

  /** A clean item followed by a space and a comma-free word is clean. */
  lemma CleanItemThenWord(item: string, w: string)
    requires CleanItem(item) && IsWord(w) && ',' !in w
    ensures CleanItem(item + " " + w)
  {
    var ws := Split(item) + [w];
    JoinSplit(item);
    JoinSnoc(Split(item), w);
    assert AllWords(ws) by {
      assert forall i :: 0 <= i < |Split(item)| ==> ws[i] == Split(item)[i];
    }
    assert Join(ws) == item + " " + w;
  }

  /** A price written with a thousands separator ("1,250.00") is cut at the
      comma: the line reads as if the quantity were one more word of the
      item, the digits before the comma were the quantity and those after it
      the price. */
  lemma {:induction false} ThousandsSeparatorSplitsPrice(
    item: string, quantity: int, thousands: nat, whole: nat, frac: string)
    requires CleanItem(item) && AllDigits(frac)
    ensures ParseLine(LineText(item, quantity, NatText(thousands) + "," + PriceText(false, whole, frac)))
         == Some(BillRecord(item + " " + IntText(quantity), thousands, DecimalValue(whole, frac)))
  {
    var q := IntText(quantity);
    var t := NatText(thousands);
    var p := PriceText(false, whole, frac);
    var line := LineText(item, quantity, t + "," + p);
    var item2 := item + " " + q;
    IntTextIsToken(quantity);
    assert ',' !in t && '\t' !in t by {
      assert forall k :: 0 <= k < |t| ==> t[k] != ',' && t[k] != '\t';
    }
    PriceTextIsToken(false, whole, frac);
    CleanItemHasNoTab(item);
    var head := item2 + " " + t;
    assert line == head + "," + p;
    SeparateAppend(head + ",", p);
    SeparateAppend(head, ",");
    SeparateNoOp(head);
    SeparateNoOp(p);
    assert Separate(",") == " ";
    assert Separate(line) == LineText(item2, thousands, p);
    CleanItemThenWord(item, q);
    ParseLineText(item2, thousands, false, whole, frac);
    SeparatorsAreSpaces(line);
  }
}
