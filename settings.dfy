/**
 * The plugin's settings: output format, encoder quality and width, with
 * their defaults, and what loading makes of the persisted record.
 */
module Settings {
  import opened Wrappers

  /**
   * `PDFToImagePluginSettings`. The format is the lower-case token of the
   * image encoding ("png", "jpeg" or "webp" when set from the settings tab);
   * the quality is carried along to the encoder and never read here.
   */
  datatype PluginSettings = PluginSettings(format: string, quality: real, width: int)

  /** `DEFAULT_SETTINGS`. */
  const DEFAULT_SETTINGS: PluginSettings := PluginSettings("jpeg", 1.0, 1600)

  /**
   * The record `loadData()` yields: each field may be absent, and the whole
   * record is absent when nothing was ever saved.
   */
  datatype SavedData = SavedData(format: Option<string>, quality: Option<real>, width: Option<int>)

  /**
   * What `saveData(settings)` persists: every field, so that whatever the
   * record is spread over, the settings come back unchanged.
   */
  function ToSavedData(s: PluginSettings): (d: SavedData)
    ensures d.format.Some? && d.quality.Some? && d.width.Some?
    ensures forall base :: Overlay(base, Some(d)) == s
  {
    SavedData(Some(s.format), Some(s.quality), Some(s.width))
  }

  /**
   * `{ ...base, ...data }`: every field present in `data` replaces the
   * corresponding field of `base`; an absent record changes nothing.
   */
  function Overlay(base: PluginSettings, data: Option<SavedData>): (r: PluginSettings)
    ensures data.None? ==> r == base
  {
    match data
    case None => base
    case Some(d) =>
      PluginSettings(d.format.GetOr(base.format), d.quality.GetOr(base.quality), d.width.GetOr(base.width))
  }

  /**
   * `loadSettings`: the defaults overlaid with the persisted record. Each
   * field is the persisted one when present and its default otherwise.
   */
  function LoadedSettings(data: Option<SavedData>): (r: PluginSettings)
    ensures r.format == if data.Some? && data.value.format.Some? then data.value.format.value else "jpeg"
    ensures r.quality == if data.Some? && data.value.quality.Some? then data.value.quality.value else 1.0
    ensures r.width == if data.Some? && data.value.width.Some? then data.value.width.value else 1600
  {
    Overlay(DEFAULT_SETTINGS, data)
  }
}
