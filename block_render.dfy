/**
 * The render context `renderBlock` hands to a block view: the block
 * instance array ACF passes in, with the slug, the defaults and the render
 * arguments filled in, and the class list joined into one string. The
 * `tone/blocks/...` data filters are taken to return the block unchanged.
 */
module BlockRender {
  import opened PhpStrings
  import opened PhpValues
  import opened BlockSlug

  /** The keys `renderBlock` sets on every block. */
  const ContextKeys: set<string> := {"className", "post_id", "is_preview", "content", "slug", "anchor", "classes"}

  /** The four-entry class list, before `array_filter`. */
  function ClassEntries(slug: string, className: Value, isPreview: Value, align: Value): (r: seq<Value>)
    ensures |r| == 4
  {
    [Str(slug), className, if Truthy(isPreview) then Str("is-preview") else Null, Str("align" + ToStr(align))]
  }

  /** The class string: the truthy class entries joined by single spaces. */
  function ClassString(slug: string, className: Value, isPreview: Value, align: Value): string {
    Implode(ArrayFilter(ClassEntries(slug, className, isPreview, align)), ' ')
  }

  /**
   * `renderBlock` up to the view lookup: derives the slug from the block
   * name, merges the `className` default under the block, sets the render
   * arguments and the slug, defaults `anchor`, then builds the class list
   * and replaces it by its joined string.
   */
  method RenderBlock(block: map<string, Value>, content: string, isPreview: Value, postId: Value)
      returns (ctx: map<string, Value>)
    ensures ctx.Keys == block.Keys + ContextKeys
    ensures forall k :: k in block && k !in ContextKeys ==> ctx[k] == block[k]
    ensures ctx["slug"] == Str(RenderSlug(ToStr(Lookup(block, "name"))))
    ensures ctx["className"] == (if "className" in block then block["className"] else Str(""))
    ensures ctx["anchor"] == (if IsSet(block, "anchor") then block["anchor"] else Str(""))
    ensures ctx["post_id"] == postId && ctx["is_preview"] == isPreview && ctx["content"] == Str(content)
    ensures ctx["classes"] == Str(ClassString(RenderSlug(ToStr(Lookup(block, "name"))), ctx["className"], isPreview, Lookup(block, "align")))
  {
    var slug := RenderSlug(ToStr(Lookup(block, "name")));
    ctx := map["className" := Str("")] + block;
    ctx := ctx["post_id" := postId];
    ctx := ctx["is_preview" := isPreview];
    ctx := ctx["content" := Str(content)];
    ctx := ctx["slug" := Str(slug)];
    ctx := ctx["anchor" := if IsSet(ctx, "anchor") then ctx["anchor"] else Str("")];
    assert ctx["className"] == (if "className" in block then block["className"] else Str(""));
    assert Lookup(ctx, "align") == Lookup(block, "align");
    assert ctx["is_preview"] == isPreview;
    var classes := [
      Str(slug),
      ctx["className"],
      if Truthy(ctx["is_preview"]) then Str("is-preview") else Null,
      Str("align" + ToStr(Lookup(ctx, "align")))
    ];
    assert classes == ClassEntries(slug, ctx["className"], isPreview, Lookup(block, "align"));
    ctx := ctx["classes" := List(classes)];
    ctx := ctx["classes" := Str(Implode(ArrayFilter(ctx["classes"].items), ' '))];
  }

  /**
   * The filtered class list: the slug unless PHP reads it as false ("" or
   * "0"), the class name unless falsy, "is-preview" exactly in preview, and
   * always the alignment class last.
   */
  lemma ClassListShape(slug: string, className: Value, isPreview: Value, align: Value)
    ensures ArrayFilter(ClassEntries(slug, className, isPreview, align)) ==
      (if Falsy(slug) then [] else [Str(slug)])
      + (if Truthy(className) then [className] else [])
      + (if Truthy(isPreview) then [Str("is-preview")] else [])
      + [Str("align" + ToStr(align))]
  {
    var preview := if Truthy(isPreview) then Str("is-preview") else Null;
    var alignClass := "align" + ToStr(align);
    ArrayFilterFour(Str(slug), className, preview, Str(alignClass));
    assert Keep(preview) == (if Truthy(isPreview) then [Str("is-preview")] else []);
    assert |alignClass| >= 5;
    assert Keep(Str(alignClass)) == [Str(alignClass)];
  }

  /** The string forms of a list with one more value. */
  lemma StringsSnoc(vs: seq<Value>, v: Value)
    ensures Strings(vs + [v]) == Strings(vs) + [ToStr(v)]
  {
  }

  /** The class string always ends with the alignment class. */
  lemma ClassStringEndsWithAlign(slug: string, className: Value, isPreview: Value, align: Value)
    ensures EndsWith(ClassString(slug, className, isPreview, align), "align" + ToStr(align))
  {
    ClassListShape(slug, className, isPreview, align);
    var last := Str("align" + ToStr(align));
    var init := (if Falsy(slug) then [] else [Str(slug)])
      + (if Truthy(className) then [className] else [])
      + (if Truthy(isPreview) then [Str("is-preview")] else []);
    StringsSnoc(init, last);
    JoinSnoc(Strings(init), ToStr(last), ' ');
  }

  /**
   * Splitting the class string on spaces gives back the filtered entries,
   * as long as none of the slug, class name and alignment contains a space.
   */
  lemma ClassStringTokens(slug: string, className: Value, isPreview: Value, align: Value)
    requires ' ' !in slug && ' ' !in ToStr(className) && ' ' !in ToStr(align)
    ensures Split(ClassString(slug, className, isPreview, align), ' ')
         == Strings(ArrayFilter(ClassEntries(slug, className, isPreview, align)))
  {
    var entries := ClassEntries(slug, className, isPreview, align);
    var parts := Strings(ArrayFilter(entries));
    ClassListShape(slug, className, isPreview, align);
    forall i | 0 <= i < |parts| ensures ' ' !in parts[i] {
      var v := ArrayFilter(entries)[i];
      if v == Str("align" + ToStr(align)) {
        assert forall c :: c in "align" + ToStr(align) ==> c in "align" || c in ToStr(align);
      }
    }
    SplitJoin(parts, ' ');
  }

  /** "is-preview" is among the classes exactly in preview, unless the slug or class name is itself "is-preview". */
  lemma PreviewClass(slug: string, className: Value, isPreview: Value, align: Value)
    requires slug != "is-preview" && ToStr(className) != "is-preview"
    ensures "is-preview" in Strings(ArrayFilter(ClassEntries(slug, className, isPreview, align))) <==> Truthy(isPreview)
  {
    ClassListShape(slug, className, isPreview, align);
    var filtered := ArrayFilter(ClassEntries(slug, className, isPreview, align));
    var strs := Strings(filtered);
    var front := (if Falsy(slug) then [] else [Str(slug)]) + (if Truthy(className) then [className] else []);
    var alignClass := "align" + ToStr(align);
    assert alignClass != "is-preview" by {
      assert alignClass[0] == 'a';
    }
    if Truthy(isPreview) {
      assert filtered == front + [Str("is-preview")] + [Str(alignClass)];
      assert filtered[|front|] == Str("is-preview");
      assert strs[|front|] == "is-preview";
    } else {
      assert filtered == front + [Str(alignClass)];
      forall k | 0 <= k < |strs| ensures strs[k] != "is-preview" {
        assert filtered[k] in front || filtered[k] == Str(alignClass);
        if filtered[k] in front {
          assert filtered[k] == Str(slug) || filtered[k] == className;
        }
      }
    }
  }

  /** A block without a class name or alignment, outside preview, renders with the classes "<slug> align". */
  lemma PlainBlockClasses(slug: string)
    requires !Falsy(slug)
    ensures ClassString(slug, Str(""), Bool(false), Null) == slug + " align"
  {
    ClassListShape(slug, Str(""), Bool(false), Null);
    var filtered := ArrayFilter(ClassEntries(slug, Str(""), Bool(false), Null));
    assert "align" + ToStr(Null) == "align";
    assert filtered == [Str(slug), Str("align")];
    assert Strings(filtered) == [slug, "align"];
    assert Join([slug, "align"], ' ') == slug + [' '] + Join(["align"], ' ');
  }
}
