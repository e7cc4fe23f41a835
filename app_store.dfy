/**
 * The application settings (`app.store.ts`) and the detail page's state
 * (`detail.store.ts`).
 */
module AppStore {
  import opened JsString
  import opened Types

  /** `defaultConfig`. */
  const DefaultConfig: AppConfig := AppConfig(30, 12, 36, 30, 200, 26)

  /** A `Partial<AppConfig>`: the fields it carries. */
  datatype ConfigPatch = ConfigPatch(
    previewRange: Option<int>,
    minFontSize: Option<int>,
    maxFontSize: Option<int>,
    maxSearchGap: Option<int>,
    detailRange: Option<int>,
    charGridWidth: Option<int>)

  function Or(v: Option<int>, current: int): int
  {
    if v.Some? then v.value else current
  }

  /** `Object.assign(config, partial)`. */
  function Patched(c: AppConfig, p: ConfigPatch): AppConfig
  {
    AppConfig(
      Or(p.previewRange, c.previewRange),
      Or(p.minFontSize, c.minFontSize),
      Or(p.maxFontSize, c.maxFontSize),
      Or(p.maxSearchGap, c.maxSearchGap),
      Or(p.detailRange, c.detailRange),
      Or(p.charGridWidth, c.charGridWidth))
  }

  /** The patch that carries every field of `c`. */
  function Full(c: AppConfig): ConfigPatch
  {
    ConfigPatch(Some(c.previewRange), Some(c.minFontSize), Some(c.maxFontSize),
                Some(c.maxSearchGap), Some(c.detailRange), Some(c.charGridWidth))
  }

  /** An empty patch changes nothing, applying a patch twice is applying it
      once, a full patch replaces everything, and a later patch wins over
      an earlier one on the fields it carries. */
  lemma PatchedSpec(c: AppConfig, p: ConfigPatch, q: ConfigPatch, d: AppConfig)
    ensures Patched(c, ConfigPatch(None, None, None, None, None, None)) == c
    ensures Patched(Patched(c, p), p) == Patched(c, p)
    ensures Patched(c, Full(d)) == d
    ensures q == Full(d) ==> Patched(Patched(c, p), q) == d
  {
  }

  class App {
    var config: AppConfig
    var showSettings: bool

    /** The store as loaded: stored values merged over the defaults. */
    constructor (stored: ConfigPatch, showSettings: bool)
      ensures config == Patched(DefaultConfig, stored) && this.showSettings == showSettings
    {
      config := Patched(DefaultConfig, stored);
      this.showSettings := showSettings;
    }

    /** `updateConfig`: the fields the patch carries are overwritten, all
        others keep their value. */
    method UpdateConfig(partial: ConfigPatch)
      modifies this
      ensures config == Patched(old(config), partial) && showSettings == old(showSettings)
    {
      config := Patched(config, partial);
    }

    /** `resetConfig`. */
    method ResetConfig()
      modifies this
      ensures config == DefaultConfig && showSettings == old(showSettings)
    {
      config := Patched(config, Full(DefaultConfig));
    }

    method OpenSettings()
      modifies this
      ensures showSettings && config == old(config)
    {
      showSettings := true;
    }

    method CloseSettings()
      modifies this
      ensures !showSettings && config == old(config)
    {
      showSettings := false;
    }
  }

  /** `fromRoute`'s initial value and `setDetail`'s default. */
  const SearchRoute: string := "/search"

  class Detail {
    var currentResult: Option<SearchResult>
    var searchKeyword: string
    var isExact: bool
    var fromRoute: string

    constructor ()
      ensures currentResult.None? && searchKeyword == [] && !isExact && fromRoute == SearchRoute
    {
      currentResult := None;
      searchKeyword := [];
      isExact := false;
      fromRoute := SearchRoute;
    }

    /** `setDetail`; an omitted argument (None) takes its default. */
    method SetDetail(result: SearchResult, keyword: Option<string>, exact: Option<bool>, from: Option<string>)
      modifies this
      ensures currentResult == Some(result)
      ensures searchKeyword == (if keyword.Some? then keyword.value else [])
      ensures isExact == (exact.Some? && exact.value)
      ensures fromRoute == (if from.Some? then from.value else SearchRoute)
    {
      currentResult := Some(result);
      searchKeyword := if keyword.Some? then keyword.value else [];
      isExact := if exact.Some? then exact.value else false;
      fromRoute := if from.Some? then from.value else SearchRoute;
    }

    /** `clearDetail`: everything but the route to return to is reset. */
    method ClearDetail()
      modifies this
      ensures currentResult.None? && searchKeyword == [] && !isExact
      ensures fromRoute == old(fromRoute)
    {
      currentResult := None;
      searchKeyword := [];
      isExact := false;
    }
  }
}
