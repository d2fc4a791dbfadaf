/**
 * The per-record part of `renderApps`: the values one card shows, with the
 * DOM left out.
 */
module Cards {
  import opened Wrappers
  import opened Text
  import opened Catalog
  import opened SizeFormat

  const Placeholder: string := "—"
  const PlaceholderIcon: string := "assets/placeholder.png"
  const NoHashLabel: string := "No SHA-256"

  /** The copy-hash button: enabled and holding the hash, or disabled with
      a label saying there is none. */
  datatype CopyControl = CopyHash(hash: string) | CopyDisabled(caption: string)

  /** The date line: "Updated: —", or "Updated: " followed by the date of
      the timestamp in the reader's locale. */
  datatype DateLine = UpdatedUnknown | UpdatedOn(timestamp: int)

  datatype Card = Card(
    iconSrc: string,
    iconAlt: string,
    name: string,
    version: string,
    description: string,
    size: string,
    updated: DateLine,
    minSdk: string,
    downloadHref: string,
    copy: CopyControl)

  /** JavaScript truthiness of an optional string field. */
  predicate HasText(s: Option<string>) {
    s.Some? && s.value != ""
  }

  /** JavaScript truthiness of `min_sdk`. */
  predicate HasSdk(v: Option<SdkValue>) {
    match v
    case None => false
    case Some(SdkText(t)) => t != ""
    case Some(SdkLevel(n)) => n != 0
  }

  /** `${app.min_sdk}` */
  function SdkString(v: SdkValue): string {
    match v
    case SdkText(t) => t
    case SdkLevel(n) => NatToString(n)
  }

  /** The card for one record: its name, its link, a date line exactly when
      it has a date, and a usable copy button exactly when it has a hash. */
  function CardOf(app: Record): (c: Card)
    ensures c.name == app.name && c.downloadHref == app.downloadUrl
    ensures c.updated == UpdatedUnknown <==> app.updated.None?
    ensures c.copy.CopyDisabled? <==> !HasText(app.sha256)
  {
    Card(
      if HasText(app.icon) then app.icon.value else PlaceholderIcon,
      app.name + " icon",
      app.name,
      "v" + app.version,
      if HasText(app.description) then app.description.value else "",
      if app.sizeBytes.Some? && app.sizeBytes.value != 0
        then "Size: " + FormatBytes(app.sizeBytes.value) else "Size: " + Placeholder,
      if app.updated.Some? then UpdatedOn(app.updated.value) else UpdatedUnknown,
      if HasSdk(app.minSdk) then "Min SDK: " + SdkString(app.minSdk.value) else "Min SDK: " + Placeholder,
      app.downloadUrl,
      if HasText(app.sha256) then CopyHash(app.sha256.value) else CopyDisabled(NoHashLabel))
  }

  /** What a card shows for a record, and when it shows a placeholder. */
  lemma CardShowsRecord(app: Record)
    ensures var c := CardOf(app);
      && c.name == app.name && c.iconAlt == app.name + " icon"
      && c.version == "v" + app.version
      && c.downloadHref == app.downloadUrl
      && c.iconSrc == (if HasText(app.icon) then app.icon.value else PlaceholderIcon)
      && (c.description == "" <==> !HasText(app.description))
      && (HasText(app.description) ==> c.description == app.description.value)
      && (c.size == "Size: —" <==> app.sizeBytes.None? || app.sizeBytes == Some(0))
      && (app.sizeBytes.Some? && app.sizeBytes.value != 0 ==>
           c.size == "Size: " + FormatBytes(app.sizeBytes.value))
      && (c.updated == UpdatedUnknown <==> app.updated.None?)
      && (app.updated.Some? ==> c.updated == UpdatedOn(app.updated.value))
      && (!HasSdk(app.minSdk) ==> c.minSdk == "Min SDK: —")
      && (HasSdk(app.minSdk) ==> c.minSdk == "Min SDK: " + SdkString(app.minSdk.value))
      && (c.copy.CopyDisabled? <==> !HasText(app.sha256))
      && c.copy == (if HasText(app.sha256) then CopyHash(app.sha256.value) else CopyDisabled(NoHashLabel))
  {
    if app.sizeBytes.Some? && app.sizeBytes.value != 0 {
      var f := FormatBytes(app.sizeBytes.value);
      assert |f| >= 2;
      assert ("Size: " + f)[6..] == f;
    }
  }
}
