/**
 * The block registration record built from a template's file headers,
 * the mandatory-field checks that precede it, and the asset path rewrite.
 */
module BlockDescriptor {
  import opened Wrappers
  import opened PhpStrings

  /**
   * The header values `get_file_data` returns for one template: every key
   * is present, and a header missing from the file reads as "".
   */
  datatype FileHeaders = FileHeaders(
    title: string,                 // Title
    description: string,           // Description
    category: string,              // Category
    icon: string,                  // Icon
    keywords: string,              // Keywords
    mode: string,                  // Mode
    align: string,                 // Align
    postTypes: string,             // PostTypes
    supportsAlign: string,         // SupportsAlign
    supportsAnchor: string,        // SupportsAnchor
    supportsMode: string,          // SupportsMode
    supportsJsx: string,           // SupportsInnerBlocks
    supportsAlignText: string,     // SupportsAlignText
    supportsAlignContent: string,  // SupportsAlignContent
    supportsMultiple: string,      // SupportsMultiple
    enqueueStyle: string,          // EnqueueStyle
    enqueueScript: string,         // EnqueueScript
    enqueueAssets: string,         // EnqueueAssets
    customFields: string,          // CustomFields (read, never used)
    disabled: string)              // Disabled (read, never used)

  /** What `get_file_data` returns for a path that is not an existing file. */
  const NoHeaders := FileHeaders("", "", "", "", "", "", "", "", "", "", "", "", "", "", "", "", "", "", "", "")

  /** A `supports` entry: a boolean, or the list of allowed alignments. */
  datatype Support = Flag(on: bool) | Aligns(aligns: seq<string>)

  /** The keys `createBlocks` may set under `supports`. */
  datatype SupportKey = Align | Anchor | Mode | Jsx | AlignText | AlignContent | Multiple {
    /** The position of the key in the order `createBlocks` sets them. */
    function Position(): nat {
      match this
      case Align => 0
      case Anchor => 1
      case Mode => 2
      case Jsx => 3
      case AlignText => 4
      case AlignContent => 5
      case Multiple => 6
    }
  }

  /**
   * The array handed to `acf_register_block_type`. `postTypes` is None when
   * the `post_types` key is absent, and the `supports` key is present
   * exactly when `supports` is not empty. The `render_callback` entry is
   * always the renderer and is not recorded.
   */
  datatype BlockData = BlockData(
    name: string,
    title: string,
    description: string,
    category: string,
    icon: string,
    keywords: seq<string>,
    mode: string,
    align: string,
    enqueueStyle: string,
    enqueueScript: string,
    enqueueAssets: string,
    exampleMode: string,  // example.attributes.mode
    postTypes: Option<seq<string>>,
    supports: map<SupportKey, Support>)

  /** The `die` message for a template without a title. */
  function TitleMessage(dir: string, filename: string): string {
    "This block needs a title: " + dir + "/" + filename
  }

  /** The `die` message for a template without a category. */
  function CategoryMessage(dir: string, filename: string): string {
    "This block needs a category: " + dir + "/" + filename
  }

  /**
   * The mandatory-field checks: the message `createBlocks` dies with, or
   * None when the template may be registered. Title is checked first.
   */
  function Validate(dir: string, filename: string, h: FileHeaders): (r: Option<string>)
    ensures r.None? <==> !Falsy(h.title) && !Falsy(h.category)
    ensures Falsy(h.title) ==> r == Some(TitleMessage(dir, filename))
    ensures !Falsy(h.title) && Falsy(h.category) ==> r == Some(CategoryMessage(dir, filename))
  {
    if Falsy(h.title) then Some(TitleMessage(dir, filename))
    else if Falsy(h.category) then Some(CategoryMessage(dir, filename))
    else None
  }

  /** `preg_match('/^(styles|scripts)/', $path)`. */
  predicate IsThemeAsset(path: string) {
    StartsWith(path, "styles") || StartsWith(path, "scripts")
  }

  /**
   * `checkAssetPath`: a path under the theme's `styles` or `scripts` is
   * replaced by the URI the asset pipeline gives it (`assetUri`); any other
   * path is left as it is.
   */
  function CheckAssetPath(path: string, assetUri: string -> string): (r: string)
    ensures IsThemeAsset(path) ==> r == assetUri(path)
    ensures !IsThemeAsset(path) ==> r == path
  {
    if IsThemeAsset(path) then assetUri(path) else path
  }

  /** An enqueue header after the rewrite `createBlocks` applies when it is non-empty. */
  function EnqueuePath(header: string, assetUri: string -> string): string {
    if Falsy(header) then header else CheckAssetPath(header, assetUri)
  }

  /** The number of `supports` keys `createBlocks` may set. */
  const SupportKeyCount: nat := 7

  /** The `supports` key `createBlocks` sets at step `i`. */
  function KeyAt(i: nat): (key: SupportKey)
    requires i < SupportKeyCount
    ensures key.Position() == i
  {
    if i == 0 then Align
    else if i == 1 then Anchor
    else if i == 2 then Mode
    else if i == 3 then Jsx
    else if i == 4 then AlignText
    else if i == 5 then AlignContent
    else Multiple
  }

  /**
   * The header whose non-emptiness decides whether a `supports` key is set.
   * For `align_content` the code tests the align-text header.
   */
  function GateHeader(h: FileHeaders, key: SupportKey): string {
    match key
    case Align => h.supportsAlign
    case Anchor => h.supportsAnchor
    case Mode => h.supportsMode
    case Jsx => h.supportsJsx
    case AlignText => h.supportsAlignText
    case AlignContent => h.supportsAlignText
    case Multiple => h.supportsMultiple
  }

  /** The header a `supports` key takes its value from. */
  function ValueHeader(h: FileHeaders, key: SupportKey): string {
    if key == AlignContent then h.supportsAlignContent else GateHeader(h, key)
  }

  /**
   * `supports.align`: the literal strings "true" and "false" become booleans
   * (`filter_var(..., FILTER_VALIDATE_BOOLEAN)`), anything else the space split.
   */
  function AlignSupport(v: string): Support {
    if v == "true" || v == "false" then Flag(v == "true") else Aligns(Split(v, ' '))
  }

  /** The value of a `supports` key: `align` as above, the others `=== 'true'`. */
  function SupportValue(key: SupportKey, v: string): Support {
    if key == Align then AlignSupport(v) else Flag(v == "true")
  }

  /** The `supports` entries the first `n` keys contribute, considered in order. */
  function SupportsUpTo(h: FileHeaders, n: nat): map<SupportKey, Support>
    requires n <= SupportKeyCount
  {
    if n == 0 then map[]
    else
      var key := KeyAt(n - 1);
      var before := SupportsUpTo(h, n - 1);
      if Falsy(GateHeader(h, key)) then before else before[key := SupportValue(key, ValueHeader(h, key))]
  }

  /** The `supports` map of a template. */
  function Supports(h: FileHeaders): map<SupportKey, Support> {
    SupportsUpTo(h, SupportKeyCount)
  }

  /** A key has an entry among the first `n` exactly when its position is below `n` and its gate header is non-empty. */
  lemma {:induction false} InSupportsUpTo(h: FileHeaders, n: nat, key: SupportKey)
    requires n <= SupportKeyCount
    ensures key in SupportsUpTo(h, n) <==> key.Position() < n && !Falsy(GateHeader(h, key))
    ensures key in SupportsUpTo(h, n) ==> SupportsUpTo(h, n)[key] == SupportValue(key, ValueHeader(h, key))
  {
    if n > 0 {
      InSupportsUpTo(h, n - 1, key);
    }
  }

  /** A key has an entry exactly when its gate header is non-empty, and the entry is its value. */
  lemma InSupports(h: FileHeaders, key: SupportKey)
    ensures key in Supports(h) <==> !Falsy(GateHeader(h, key))
    ensures key in Supports(h) ==> Supports(h)[key] == SupportValue(key, ValueHeader(h, key))
  {
    InSupportsUpTo(h, SupportKeyCount, key);
  }

  /** The registration record for a template with slug `slug` and headers `h`. */
  function Descriptor(slug: string, h: FileHeaders, assetUri: string -> string): BlockData {
    BlockData(
      name := ReplaceAll(slug, "acf-", ""),
      title := h.title,
      description := h.description,
      category := h.category,
      icon := h.icon,
      keywords := Split(h.keywords, ' '),
      mode := if Falsy(h.mode) then "preview" else h.mode,
      align := h.align,
      enqueueStyle := EnqueuePath(h.enqueueStyle, assetUri),
      enqueueScript := EnqueuePath(h.enqueueScript, assetUri),
      enqueueAssets := h.enqueueAssets,
      exampleMode := "preview",
      postTypes := if Falsy(h.postTypes) then None else Some(Split(h.postTypes, ' ')),
      supports := Supports(h))
  }

  /** The successive `$data['supports'][...] = ...` assignments of `createBlocks`. */
  method AddSupports(h: FileHeaders) returns (supports: map<SupportKey, Support>)
    ensures supports == Supports(h)
  {
    supports := map[];
    if !Falsy(h.supportsAlign) {
      supports := supports[Align := AlignSupport(h.supportsAlign)];
    }
    assert supports == SupportsUpTo(h, 1);
    if !Falsy(h.supportsAnchor) {
      supports := supports[Anchor := Flag(h.supportsAnchor == "true")];
    }
    assert supports == SupportsUpTo(h, 2);
    if !Falsy(h.supportsMode) {
      supports := supports[Mode := Flag(h.supportsMode == "true")];
    }
    assert supports == SupportsUpTo(h, 3);
    if !Falsy(h.supportsJsx) {
      supports := supports[Jsx := Flag(h.supportsJsx == "true")];
    }
    assert supports == SupportsUpTo(h, 4);
    if !Falsy(h.supportsAlignText) {
      supports := supports[AlignText := Flag(h.supportsAlignText == "true")];
    }
    assert supports == SupportsUpTo(h, 5);
    if !Falsy(h.supportsAlignText) {
      supports := supports[AlignContent := Flag(h.supportsAlignContent == "true")];
    }
    assert supports == SupportsUpTo(h, 6);
    if !Falsy(h.supportsMultiple) {
      supports := supports[Multiple := Flag(h.supportsMultiple == "true")];
    }
    assert supports == SupportsUpTo(h, 7);
  }

  /**
   * The loop body of `createBlocks` after validation: rewrites the enqueue
   * paths, sets up the record, then adds the optional entries one by one.
   */
  method BuildBlockData(slug: string, h: FileHeaders, assetUri: string -> string) returns (data: BlockData)
    ensures data == Descriptor(slug, h, assetUri)
  {
    var style, script := h.enqueueStyle, h.enqueueScript;
    if !Falsy(style) {
      style := CheckAssetPath(style, assetUri);
    }
    if !Falsy(script) {
      script := CheckAssetPath(script, assetUri);
    }
    data := BlockData(
      name := ReplaceAll(slug, "acf-", ""),
      title := h.title,
      description := h.description,
      category := h.category,
      icon := h.icon,
      keywords := Split(h.keywords, ' '),
      mode := if !Falsy(h.mode) then h.mode else "preview",
      align := h.align,
      enqueueStyle := style,
      enqueueScript := script,
      enqueueAssets := h.enqueueAssets,
      exampleMode := "preview",
      postTypes := None,
      supports := map[]);
    if !Falsy(h.postTypes) {
      data := data.(postTypes := Some(Split(h.postTypes, ' ')));
    }
    var supports := AddSupports(h);
    data := data.(supports := supports);
  }

  /** Title, description, category, icon, align and the assets header are copied unchanged. */
  lemma DescriptorCopiesHeaders(slug: string, h: FileHeaders, assetUri: string -> string)
    ensures var d := Descriptor(slug, h, assetUri);
      && d.title == h.title && d.description == h.description && d.category == h.category
      && d.icon == h.icon && d.align == h.align && d.enqueueAssets == h.enqueueAssets
      && d.exampleMode == "preview"
  {
  }

  /** `mode` is the header when PHP reads it as true, else "preview"; it is never falsy. */
  lemma DescriptorMode(slug: string, h: FileHeaders, assetUri: string -> string)
    ensures var d := Descriptor(slug, h, assetUri);
      && !Falsy(d.mode)
      && (!Falsy(h.mode) ==> d.mode == h.mode)
      && (Falsy(h.mode) ==> d.mode == "preview")
  {
  }

  /**
   * `keywords` is the header exploded on single spaces: joining it back
   * gives the header, no keyword holds a space, and an empty header gives [""].
   */
  lemma KeywordsRoundTrip(slug: string, h: FileHeaders, assetUri: string -> string)
    ensures var d := Descriptor(slug, h, assetUri);
      && Join(d.keywords, ' ') == h.keywords
      && (forall i :: 0 <= i < |d.keywords| ==> ' ' !in d.keywords[i])
      && (h.keywords == "" ==> d.keywords == [""])
  {
    JoinSplit(h.keywords, ' ');
  }

  /** `post_types` is present exactly when its header is non-empty, and is then its space split. */
  lemma PostTypesPresence(slug: string, h: FileHeaders, assetUri: string -> string)
    ensures var d := Descriptor(slug, h, assetUri);
      && (d.postTypes.Some? <==> !Falsy(h.postTypes))
      && (d.postTypes.Some? ==> Join(d.postTypes.value, ' ') == h.postTypes)
  {
    JoinSplit(h.postTypes, ' ');
  }

  /**
   * `supports.align` is absent for an empty header, `true` for "true",
   * `false` for "false", and otherwise the list whose space join is the header.
   */
  lemma SupportsAlign(h: FileHeaders)
    ensures Align in Supports(h) <==> !Falsy(h.supportsAlign)
    ensures h.supportsAlign == "true" ==> Supports(h)[Align] == Flag(true)
    ensures h.supportsAlign == "false" ==> Supports(h)[Align] == Flag(false)
    ensures !Falsy(h.supportsAlign) && h.supportsAlign != "true" && h.supportsAlign != "false" ==>
      Supports(h)[Align].Aligns? && Join(Supports(h)[Align].aligns, ' ') == h.supportsAlign
  {
    InSupports(h, Align);
    JoinSplit(h.supportsAlign, ' ');
  }

  /**
   * Each boolean `supports` key other than `align_content` is present
   * exactly when its own header is non-empty, and is true exactly when that
   * header is the string "true"; "false", "yes" or "1" all give false.
   */
  lemma SupportsFlags(h: FileHeaders)
    ensures Anchor in Supports(h) <==> !Falsy(h.supportsAnchor)
    ensures Anchor in Supports(h) ==> Supports(h)[Anchor] == Flag(h.supportsAnchor == "true")
    ensures Mode in Supports(h) <==> !Falsy(h.supportsMode)
    ensures Mode in Supports(h) ==> Supports(h)[Mode] == Flag(h.supportsMode == "true")
    ensures Jsx in Supports(h) <==> !Falsy(h.supportsJsx)
    ensures Jsx in Supports(h) ==> Supports(h)[Jsx] == Flag(h.supportsJsx == "true")
    ensures AlignText in Supports(h) <==> !Falsy(h.supportsAlignText)
    ensures AlignText in Supports(h) ==> Supports(h)[AlignText] == Flag(h.supportsAlignText == "true")
    ensures Multiple in Supports(h) <==> !Falsy(h.supportsMultiple)
    ensures Multiple in Supports(h) ==> Supports(h)[Multiple] == Flag(h.supportsMultiple == "true")
  {
    InSupports(h, Anchor);
    InSupports(h, Mode);
    InSupports(h, Jsx);
    InSupports(h, AlignText);
    InSupports(h, Multiple);
  }

  /**
   * `align_content` is gated on the align-text header but valued from the
   * align-content header: a template that sets only SupportsAlignContent
   * gets no `align_content` entry, and one that sets only SupportsAlignText
   * gets `align_content: false`.
   */
  lemma SupportsAlignContentGate(h: FileHeaders)
    ensures AlignContent in Supports(h) <==> !Falsy(h.supportsAlignText)
    ensures AlignContent in Supports(h) ==> Supports(h)[AlignContent] == Flag(h.supportsAlignContent == "true")
    ensures Falsy(h.supportsAlignText) && h.supportsAlignContent == "true" ==> AlignContent !in Supports(h)
  {
    InSupports(h, AlignContent);
  }

  /** No `supports` key is set at all when every gate header is empty. */
  lemma SupportsEmpty(h: FileHeaders)
    ensures Supports(h) == map[] <==>
      Falsy(h.supportsAlign) && Falsy(h.supportsAnchor) && Falsy(h.supportsMode)
      && Falsy(h.supportsJsx) && Falsy(h.supportsAlignText) && Falsy(h.supportsMultiple)
  {
    forall key: SupportKey
      ensures key in Supports(h) <==> !Falsy(GateHeader(h, key))
    {
      InSupports(h, key);
    }
    if Supports(h) == map[] {
      assert Align !in Supports(h) && Anchor !in Supports(h) && Mode !in Supports(h);
      assert Jsx !in Supports(h) && AlignText !in Supports(h) && Multiple !in Supports(h);
    }
  }

  /**
   * Only a non-empty style or script path under `styles`/`scripts` is
   * rewritten; the assets header never is.
   */
  lemma EnqueueRewrite(slug: string, h: FileHeaders, assetUri: string -> string)
    ensures var d := Descriptor(slug, h, assetUri);
      && d.enqueueStyle == (if IsThemeAsset(h.enqueueStyle) then assetUri(h.enqueueStyle) else h.enqueueStyle)
      && d.enqueueScript == (if IsThemeAsset(h.enqueueScript) then assetUri(h.enqueueScript) else h.enqueueScript)
      && d.enqueueAssets == h.enqueueAssets
  {
  }

  /**
   * A template with only a title and a category registers with mode
   * "preview", the single keyword "", and no `post_types` or `supports`.
   */
  lemma MinimalHeaders(slug: string, title: string, category: string, assetUri: string -> string)
    requires '-' !in slug
    ensures var d := Descriptor(slug, NoHeaders.(title := title, category := category), assetUri);
      && d.name == slug && d.title == title && d.category == category
      && d.mode == "preview" && d.keywords == [""]
      && d.postTypes == None && d.supports == map[]
      && d.description == "" && d.icon == "" && d.align == ""
  {
    ReplaceAllWithoutPatternChar(slug, "acf-", "", '-');
    SupportsEmpty(NoHeaders.(title := title, category := category));
  }
}
