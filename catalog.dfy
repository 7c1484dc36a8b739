/** The catalog rows and the title that `main` derives from each row's
    "Sound theme" column. */
module Catalog {
  import opened Text

  /** One row of the sounds sheet, restricted to the columns the core reads. */
  datatype SheetRow = SheetRow(url: string, soundTheme: string)

  /** A row as handed to the download loop: its URL and its derived title. */
  datatype Row = Row(url: string, title: string)

  /** What a single theme character becomes in the title. */
  function Slug(c: char): string
  {
    if c == ',' then "" else if c == ' ' then "_" else [c]
  }

  /** The title lambda: drop every comma, then turn every space into `_`. */
  function Title(theme: string): (t: string)
    ensures ',' !in t
    ensures ' ' !in t
    ensures |t| == |theme| - Count(theme, ',')
  {
    ReplaceLength(theme, ',', "");
    ReplaceLength(Replace(theme, ',', ""), ' ', "_");
    Replace(Replace(theme, ',', ""), ' ', "_")
  }

  /** The title column: the lambda applied to every row, rows kept in order. */
  function WithTitles(sheet: seq<SheetRow>): (rows: seq<Row>)
    ensures |rows| == |sheet|
    ensures forall i :: 0 <= i < |rows| ==>
      rows[i].url == sheet[i].url && ',' !in rows[i].title && ' ' !in rows[i].title
    ensures forall i :: 0 <= i < |rows| ==> |rows[i].title| == |sheet[i].soundTheme| - Count(sheet[i].soundTheme, ',')
    ensures forall i :: 0 <= i < |rows| ==> rows[i] == Row(sheet[i].url, Title(sheet[i].soundTheme))
  {
    seq(|sheet|, i requires 0 <= i < |sheet| => Row(sheet[i].url, Title(sheet[i].soundTheme)))
  }

  /** The title of a concatenation is the concatenation of the titles. */
  lemma TitleAppend(a: string, b: string)
    ensures Title(a + b) == Title(a) + Title(b)
  {
    ReplaceAppend(a, b, ',', "");
    ReplaceAppend(Replace(a, ',', ""), Replace(b, ',', ""), ' ', "_");
  }

  /** The title of one character is its slug. */
  lemma TitleOfChar(c: char)
    ensures Title([c]) == Slug(c)
  {
    ReplaceChar(c, ',', "");
    if c != ',' {
      ReplaceChar(c, ' ', "_");
    }
  }

  /** The title is the theme's slugs joined in order: `Title` is determined
      character by character by `Slug`. */
  lemma {:induction false} TitleIsSlugs(theme: string)
    ensures theme == [] ==> Title(theme) == []
    ensures theme != [] ==> Title(theme) == Slug(theme[0]) + Title(theme[1..])
  {
    if theme != [] {
      assert theme == [theme[0]] + theme[1..];
      TitleAppend([theme[0]], theme[1..]);
      TitleOfChar(theme[0]);
    }
  }

  /** Every character other than a comma survives, in its original order:
      the character at index `i` lands right after the title of the prefix
      before it, a space as `_`, anything else unchanged. */
  lemma TitleKeepsOrder(theme: string, i: nat)
    requires i < |theme| && theme[i] != ','
    ensures |Title(theme[..i])| < |Title(theme[..i + 1])| <= |Title(theme)|
    ensures Title(theme)[|Title(theme[..i])|] == if theme[i] == ' ' then '_' else theme[i]
  {
    assert theme[..i + 1] == theme[..i] + [theme[i]];
    assert theme == theme[..i + 1] + theme[i + 1..];
    TitleAppend(theme[..i], [theme[i]]);
    TitleAppend(theme[..i + 1], theme[i + 1..]);
    TitleOfChar(theme[i]);
  }

  /** Deriving a title from a title gives it back unchanged. */
  lemma TitleIdempotent(theme: string)
    ensures Title(Title(theme)) == Title(theme)
  {
    var t := Title(theme);
    ReplaceAbsent(t, ',', "");
    ReplaceAbsent(t, ' ', "_");
  }
}
