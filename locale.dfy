/** Localised text (Text/LocaleLookup.cs): the file that holds the texts of
    a system language, and the table from text type to text built from the
    rows of that file. Loading the file is left to the engine; its rows are
    the input here. */
module Locale {
  import opened Wrappers
  import opened StringExtensions

  /** Unity's `SystemLanguage`: the eight languages with a text file, and
      every other language. */
  datatype SystemLanguage =
    | English | Finnish | French | German | Korean | Russian | Spanish | Swedish
    | OtherLanguage(name: string)

  /** `LocaleMapping.SupportedLocales`. */
  const SupportedLocales: map<SystemLanguage, string> := map[
    English := "english.json",
    Finnish := "finnish.json",
    French := "french.json",
    German := "german.json",
    Korean := "korean.json",
    Russian := "russian.json",
    Spanish := "spanish.json",
    Swedish := "swedish.json"]

  /** `GetLocalePath`: the text file of a supported language, null for any
      other. */
  function GetLocalePath(language: SystemLanguage): (r: NullableString)
    ensures r.Some? <==> !language.OtherLanguage?
  {
    if language in SupportedLocales then Some(SupportedLocales[language]) else None
  }

  /** Every supported language has its own file. */
  lemma LocalePathsDistinct(a: SystemLanguage, b: SystemLanguage)
    requires GetLocalePath(a).Some? && GetLocalePath(a) == GetLocalePath(b)
    ensures a == b
  {
  }

  /** Every locale file is a `.json` file. */
  lemma LocalePathsAreJson(a: SystemLanguage)
    requires GetLocalePath(a).Some?
    ensures var path := GetLocalePath(a).value;
      |path| > 5 && path[|path| - 5..] == ".json"
  {
  }

  /** `LocaleTextType`, in declaration order (`NoText` is the member named
      `None`). */
  datatype TextType =
    | NoText | Title | Menu | Play | Create | MoreLevels | Okay | Close
    | Easy | Medium | Hard | Continue | GamePaused | RemoveAds | Purchase
    | Unlocked | LevelCompleted | Editor | Next | Replay | Steps | Best
    | Time | RestorePurchases | Restoring | RestoreFinished | Success
    | Failure | Boxes | CustomLevel | PurchasedNote

  /** `ToString()` of a text type: its member name. */
  function Name(t: TextType): string
  {
    match t
    case NoText => "None"
    case Title => "Title"
    case Menu => "Menu"
    case Play => "Play"
    case Create => "Create"
    case MoreLevels => "MoreLevels"
    case Okay => "Okay"
    case Close => "Close"
    case Easy => "Easy"
    case Medium => "Medium"
    case Hard => "Hard"
    case Continue => "Continue"
    case GamePaused => "GamePaused"
    case RemoveAds => "RemoveAds"
    case Purchase => "Purchase"
    case Unlocked => "Unlocked"
    case LevelCompleted => "LevelCompleted"
    case Editor => "Editor"
    case Next => "Next"
    case Replay => "Replay"
    case Steps => "Steps"
    case Best => "Best"
    case Time => "Time"
    case RestorePurchases => "RestorePurchases"
    case Restoring => "Restoring"
    case RestoreFinished => "RestoreFinished"
    case Success => "Success"
    case Failure => "Failure"
    case Boxes => "Boxes"
    case CustomLevel => "CustomLevel"
    case PurchasedNote => "PurchasedNote"
  }

  /** `Enum.TryParse` on member names: the text type with exactly that
      name. */
  function NamedType(s: string): Option<TextType>
  {
    match s
    case "None" => Some(NoText)
    case "Title" => Some(Title)
    case "Menu" => Some(Menu)
    case "Play" => Some(Play)
    case "Create" => Some(Create)
    case "MoreLevels" => Some(MoreLevels)
    case "Okay" => Some(Okay)
    case "Close" => Some(Close)
    case "Easy" => Some(Easy)
    case "Medium" => Some(Medium)
    case "Hard" => Some(Hard)
    case "Continue" => Some(Continue)
    case "GamePaused" => Some(GamePaused)
    case "RemoveAds" => Some(RemoveAds)
    case "Purchase" => Some(Purchase)
    case "Unlocked" => Some(Unlocked)
    case "LevelCompleted" => Some(LevelCompleted)
    case "Editor" => Some(Editor)
    case "Next" => Some(Next)
    case "Replay" => Some(Replay)
    case "Steps" => Some(Steps)
    case "Best" => Some(Best)
    case "Time" => Some(Time)
    case "RestorePurchases" => Some(RestorePurchases)
    case "Restoring" => Some(Restoring)
    case "RestoreFinished" => Some(RestoreFinished)
    case "Success" => Some(Success)
    case "Failure" => Some(Failure)
    case "Boxes" => Some(Boxes)
    case "CustomLevel" => Some(CustomLevel)
    case "PurchasedNote" => Some(PurchasedNote)
    case _ => None
  }

  /** Every member name parses back to its member, so no two members share
      a name. */
  lemma NamesParse()
    ensures forall t :: NamedType(Name(t)) == Some(t)
  {
    forall t ensures NamedType(Name(t)) == Some(t) {
      NameParses(t);
    }
  }

  lemma NameParses(t: TextType)
    ensures NamedType(Name(t)) == Some(t)
  {
    match t
    case NoText => NamesParse1(t);
    case Title => NamesParse1(t);
    case Menu => NamesParse1(t);
    case Play => NamesParse1(t);
    case Create => NamesParse1(t);
    case MoreLevels => NamesParse1(t);
    case Okay => NamesParse1(t);
    case Close => NamesParse1(t);
    case Easy => NamesParse2(t);
    case Medium => NamesParse2(t);
    case Hard => NamesParse2(t);
    case Continue => NamesParse2(t);
    case GamePaused => NamesParse2(t);
    case RemoveAds => NamesParse2(t);
    case Purchase => NamesParse2(t);
    case Unlocked => NamesParse3(t);
    case LevelCompleted => NamesParse3(t);
    case Editor => NamesParse3(t);
    case Next => NamesParse3(t);
    case Replay => NamesParse3(t);
    case Steps => NamesParse4(t);
    case Best => NamesParse4(t);
    case Time => NamesParse4(t);
    case RestorePurchases => NamesParse4(t);
    case Restoring => NamesParse5(t);
    case RestoreFinished => NamesParse5(t);
    case Success => NamesParse5(t);
    case Failure => NamesParse5(t);
    case Boxes => NamesParse6(t);
    case CustomLevel => NamesParse6(t);
    case PurchasedNote => NamesParse6(t);
  }

  lemma NamesParse1(t: TextType)
    requires t == NoText || t == Title || t == Menu || t == Play || t == Create || t == MoreLevels || t == Okay || t == Close
    ensures NamedType(Name(t)) == Some(t)
  {
  }

  lemma NamesParse2(t: TextType)
    requires t == Easy || t == Medium || t == Hard || t == Continue || t == GamePaused || t == RemoveAds || t == Purchase
    ensures NamedType(Name(t)) == Some(t)
  {
  }

  lemma NamesParse3(t: TextType)
    requires t == Unlocked || t == LevelCompleted || t == Editor || t == Next || t == Replay
    ensures NamedType(Name(t)) == Some(t)
  {
  }

  lemma NamesParse4(t: TextType)
    requires t == Steps || t == Best || t == Time || t == RestorePurchases
    ensures NamedType(Name(t)) == Some(t)
  {
  }

  lemma NamesParse5(t: TextType)
    requires t == Restoring || t == RestoreFinished || t == Success || t == Failure
    ensures NamedType(Name(t)) == Some(t)
  {
  }

  lemma NamesParse6(t: TextType)
    requires t == Boxes || t == CustomLevel || t == PurchasedNote
    ensures NamedType(Name(t)) == Some(t)
  {
  }

  // ----- The table built from the rows of a locale file -----

  /** One row of `LocaleMapping.lookup`: a possibly null array of possibly
      null strings, the key first and the text second. */
  type Row = Option<seq<NullableString>>

  /** The key a row contributes: none when the row is null, has fewer than
      two entries, or its first entry does not name a text type. */
  function RowKey(row: Row): Option<TextType>
  {
    if row.None? || |row.value| < 2 then None
    else if row.value[0].None? then None
    else NamedType(row.value[0].value)
  }

  /** The first row that contributes `key`, or -1. */
  function FirstRowFor(rows: seq<Row>, key: TextType): (j: int)
    ensures -1 <= j < |rows|
    ensures j >= 0 ==> RowKey(rows[j]) == Some(key) && forall i :: 0 <= i < j ==> RowKey(rows[i]) != Some(key)
    ensures j == -1 <==> forall i :: 0 <= i < |rows| ==> RowKey(rows[i]) != Some(key)
  {
    if rows == [] then -1
    else if RowKey(rows[0]) == Some(key) then 0
    else
      var k := FirstRowFor(rows[1..], key);
      if k == -1 then -1 else k + 1
  }

  /** The keys the rows contribute. */
  function RowKeys(rows: seq<Row>): set<TextType>
  {
    set j | 0 <= j < |rows| && RowKey(rows[j]).Some? :: RowKey(rows[j]).value
  }

  /** The table the rows describe: each contributed key maps to the text of
      the first row that contributes it. */
  function Table(rows: seq<Row>): (table: map<TextType, NullableString>)
    ensures forall key :: key in table <==> FirstRowFor(rows, key) >= 0
    ensures forall key :: key in table ==> table[key] == rows[FirstRowFor(rows, key)].value[1]
  {
    map key | key in RowKeys(rows) :: rows[FirstRowFor(rows, key)].value[1]
  }

  /** Adding a row: a key not yet in the table gets the row's text, and a
      key already there keeps its text (the first row wins). */
  lemma TableAppend(rows: seq<Row>, row: Row)
    ensures var key := RowKey(row);
      Table(rows + [row]) ==
        if key.Some? && key.value !in Table(rows) then Table(rows)[key.value := row.value[1]]
        else Table(rows)
  {
    forall key: TextType {
      FirstRowAppend(rows, row, key);
    }
  }

  /** The first row for a key after adding a row: the old first row if
      there was one, otherwise the new row if it contributes the key. */
  lemma {:induction false} FirstRowAppend(rows: seq<Row>, row: Row, key: TextType)
    ensures FirstRowFor(rows + [row], key) ==
      if FirstRowFor(rows, key) >= 0 then FirstRowFor(rows, key)
      else if RowKey(row) == Some(key) then |rows| else -1
  {
    if rows != [] {
      assert (rows + [row])[0] == rows[0];
      assert (rows + [row])[1..] == rows[1..] + [row];
      FirstRowAppend(rows[1..], row, key);
    } else {
      assert rows + [row] == [row];
    }
  }

  /** The table has entries exactly when some row contributes a key. */
  lemma TableEmptyIff(rows: seq<Row>)
    ensures |Table(rows)| > 0 <==> exists j :: 0 <= j < |rows| && RowKey(rows[j]).Some?
  {
    if j :| 0 <= j < |rows| && RowKey(rows[j]).Some? {
      assert RowKey(rows[j]).value in Table(rows);
    } else {
      assert Table(rows) == map[];
    }
  }

  /** The same table keyed by member name (`stringLookup`). */
  function StringView(lookup: map<TextType, NullableString>): (view: map<string, NullableString>)
    ensures forall t :: t in lookup ==> Name(t) in view && view[Name(t)] == lookup[t]
    ensures forall s :: s in view ==> exists t :: t in lookup && Name(t) == s
  {
    NamesParse();
    map t | t in lookup :: Name(t) := lookup[t]
  }

  /** `LocaleLookup`: the table from text type to text, and the by-name
      view of it, computed on first use. */
  class LocaleLookup {
    var lookup: map<TextType, NullableString>
    var stringCache: Option<map<string, NullableString>>

    /** The cached by-name view, once computed, is the view of the table. */
    predicate Valid()
      reads this
    {
      stringCache.Some? ==> stringCache.value == StringView(lookup)
    }

    /** The constructor: a null mapping, or one without rows, gives an empty
        table; otherwise the rows are read in order, skipping rows that
        contribute no key, and only the first row of each key is kept.
        `rows` is `mapping?.lookup`. */
    constructor (rows: Option<seq<Row>>)
      ensures Valid() && stringCache.None?
      ensures lookup == if rows.None? then map[] else Table(rows.value)
    {
      lookup := map[];
      stringCache := None;
      new;
      if rows.None? || |rows.value| == 0 {
        assert Table([]) == map[];
        return;
      }
      var all := rows.value;
      var i := 0;
      while i < |all|
        invariant 0 <= i <= |all|
        invariant lookup == Table(all[..i]) && stringCache.None?
      {
        var row := all[i];
        TableAppend(all[..i], row);
        assert all[..i + 1] == all[..i] + [row];
        i := i + 1;
        if row.None? || |row.value| < 2 {
          continue;
        }
        if row.value[0].Some? && NamedType(row.value[0].value).Some? {
          var key := NamedType(row.value[0].value).value;
          if key !in lookup {
            lookup := lookup[key := row.value[1]];
          }
        }
      }
      assert all[..i] == all;
    }

    /** `HasItems`: the table is not empty. */
    predicate HasItems()
      reads this
    {
      |lookup| > 0
    }

    /** `Lookup`: the stored text, or the default. */
    function Lookup(t: TextType, defaultValue: NullableString): NullableString
      reads this
    {
      if t in lookup then lookup[t] else defaultValue
    }

    /** `StringLookup`: the by-name view is computed once and kept; a name
        finds what `Lookup` finds for the member of that name, and a string
        that names no member finds the default. */
    method StringLookup(typeString: string, defaultValue: NullableString) returns (r: NullableString)
      requires Valid()
      modifies this
      ensures Valid() && lookup == old(lookup) && stringCache == Some(StringView(lookup))
      ensures forall t :: Name(t) == typeString ==> r == Lookup(t, defaultValue)
      ensures (forall t :: Name(t) != typeString) ==> r == defaultValue
    {
      if stringCache.None? {
        stringCache := Some(StringView(lookup));
      }
      var view := stringCache.value;
      NamesParse();
      r := if typeString in view then view[typeString] else defaultValue;
    }
  }

  /** A table built by the constructor: `Lookup` gives the text of the first
      row for the key, or the default when no row contributes it; and the
      table has items exactly when some row contributes a key. */
  lemma LookupReadsFirstRow(l: LocaleLookup, rows: seq<Row>, t: TextType, d: NullableString)
    requires l.lookup == Table(rows)
    ensures FirstRowFor(rows, t) >= 0 ==> l.Lookup(t, d) == rows[FirstRowFor(rows, t)].value[1]
    ensures FirstRowFor(rows, t) == -1 ==> l.Lookup(t, d) == d
    ensures l.HasItems() <==> exists j :: 0 <= j < |rows| && RowKey(rows[j]).Some?
  {
    TableEmptyIff(rows);
  }
}
