/** The server's ordered list of enabled algorithms, built from the
    `COMPRESS_ALGORITHM` setting. Its order is the server's priority. */
module Catalog {
  import opened Text

  /** The shapes the setting may take: one string (a single name or a
      comma-separated list of names) or an explicit list of names. */
  datatype Setting = AsString(text: string) | AsList(names: seq<string>)

  /** The setting's default value: the one algorithm "gzip". */
  const DefaultSetting: Setting := AsString("gzip")

  /** `enabled_algorithms`: a string is split at every comma and each piece
      trimmed, keeping order (so it never comes out empty); a list is taken
      as it is, in its own order. */
  function EnabledAlgorithms(setting: Setting): (r: seq<string>)
    ensures setting.AsList? ==> r == setting.names
    ensures setting.AsString? ==>
              |r| == |Split(setting.text, ',')| >= 1
              && forall k :: 0 <= k < |r| ==> IsTrimmed(r[k]) && ',' !in r[k]
  {
    match setting
    case AsString(text) =>
      var pieces := Split(text, ',');
      seq(|pieces|, k requires 0 <= k < |pieces| => Trim(pieces[k]))
    case AsList(names) => names
  }

  /** A comma-separated setting gives back its names, in order, whatever
      white space surrounds each of them. */
  lemma CommaSeparatedSetting(pieces: seq<string>, names: seq<string>)
    requires |pieces| == |names| >= 1
    requires forall k :: 0 <= k < |pieces| ==> ',' !in pieces[k] && Trim(pieces[k]) == names[k]
    ensures EnabledAlgorithms(AsString(Join(pieces, [',']))) == names
  {
    SplitJoin(pieces, ',');
  }

  /** A single name, the backwards-compatible shape, is a one-entry
      catalog. */
  lemma SingleNameSetting(name: string)
    requires ',' !in name && IsTrimmed(name)
    ensures EnabledAlgorithms(AsString(name)) == [name]
  {
    CommaSeparatedSetting([name], [name]);
  }

  /** The string and list shapes agree: writing a list of names joined by
      commas gives the same catalog as the list itself. */
  lemma ShapesAgree(names: seq<string>)
    requires |names| >= 1
    requires forall k :: 0 <= k < |names| ==> ',' !in names[k] && IsTrimmed(names[k])
    ensures EnabledAlgorithms(AsString(Join(names, [',']))) == EnabledAlgorithms(AsList(names))
  {
    forall k | 0 <= k < |names| ensures Trim(names[k]) == names[k] {
      TrimOfTrimmed(names[k]);
    }
    CommaSeparatedSetting(names, names);
  }
}
