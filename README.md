# ACF block adapter for Sage themes, modelled in Dafny

The `ACFBlocks` class turns Blade template files into Advanced Custom Fields
(ACF) Gutenberg blocks. When a theme boots, `createBlocks` does the following:

- It walks the theme's block template directories.
- It derives a block slug from each template file name.
- It reads the template's header comments (Title, Category, Keywords, Supports…).
- It stops the pass when a template's header file does not exist, since `get_file_data('')` throws.
- It dies on a template without a title or category.
- It hands each remaining block's registration record to ACF, in order.

When a block is displayed, `renderBlock` recovers the slug from the block
name, fills in the render context (`className`, `anchor`, `post_id`,
`is_preview`, `content`, `slug`) and builds the block's class string.

The model is organised as follows:

- `wrappers.dfy` (`Wrappers`): `Option`.
- `php_strings.dfy` (`PhpStrings`): the PHP string built-ins the class relies on, on `seq<char>`:
  - `empty()`/truthiness of a string ("" and "0" are falsy);
  - prefix and suffix tests;
  - ASCII `strtolower`;
  - `str_replace` (left-to-right, every occurrence);
  - `explode`/`implode` on one character, with their round trips.
- `php_values.dfy` (`PhpValues`): the loosely typed values of a block instance array. It covers:
  - truthiness;
  - string conversion (arrays become "Array");
  - `$a[$k]` on a missing key (null) and `isset`;
  - `array_filter` without a callback;
  - `implode`.
- `block_slug.dfy` (`BlockSlug`):
  - `removeBladeExtension`, with the PCRE semantics of `/(.*)\.blade\.php$/`: `.` stops at a newline, and `$` also matches before a final newline;
  - the file slug used at registration;
  - the slug `renderBlock` derives from a block name.
- `block_descriptor.dfy` (`BlockDescriptor`):
  - the template headers;
  - the title/category checks;
  - `checkAssetPath`;
  - the registration record, as a function (`Descriptor`) and as the code builds it (`BuildBlockData`, with `AddSupports` doing the successive `$data['supports'][...]` assignments).
- `block_registration.dfy` (`BlockRegistration`):
  - `createBlocks` as nested loops (`CreateBlocks`, `HandleDirectory`, `ScanDirectory`, `HandleEntry`) that append to ACF's block registry (`BlockTypeRegistry`, a class whose `blockTypes` field is the log of `acf_register_block_type` calls);
  - a specification of the whole pass (`RegistrationPass`), which the methods are proved against;
  - the properties of that specification: skips, where the headers are read from, abort on a missing directory, on a missing header file and on `die`, and the shape of every registered record.
- `block_render.dfy` (`BlockRender`): `renderBlock` up to the view lookup, as a method that updates the block array field by field. The properties of the class string are lemmas.

The host is a parameter (`Host`):

- the directory resolver (`resource_path`/`locate_template`);
- the directory listings;
- the files and the headers `get_file_data` reads from them;
- the asset URI lookup.

The pass can end in four ways:

- `Completed`: every entry of every directory was handled.
- `DirectoryMissing(directory)`: the early `return` on a missing directory.
- `HeaderReadFailed(file)`: a template's header path is not an existing file. The code then passes "" to `get_file_data`, and under PHP 8 reading "" throws a `ValueError` that nothing catches.
- `Died(message)`: a `die`.

Several behaviours of the code are easy to misread, and the model follows the code:

- The file slug lower-cases the whole file name first.
- It then removes every `acf-`, not only a leading one, so `acf-x-acf-y.blade.php` has slug `xy`.
- It then removes every `-` of the captured stem.
- Because the suffix test runs after lower-casing, `X.BLADE.PHP` is accepted.
- `renderBlock` removes every `acf/`, then every `acf-`, from the block name.
- `supports.align_content` is added when the SupportsAlignText header is non-empty. Its value is read from SupportsAlignContent. So a template that sets only SupportsAlignContent gets no `align_content` entry.
- A template whose stem is "0" has a slug PHP reads as false, and it is skipped like a non-template file.
- A missing template directory ends the whole registration pass; the directories after it are never scanned. A directory path that resolves to "" counts as missing.
- The headers are read from `dir/filename` with every `acf/` removed, the directory part included. So in a directory whose path ends in `acf`, such as `views/acf`, the template `hero.blade.php` is described by `views/hero.blade.php`. Where that file does not exist, the pass ends there, whatever the template itself holds.
- A template whose header file does not exist does not die with the title message. The header read throws first, under PHP 8.

## Model

| member | source | states |
|---|---|---|
| BlockSlug.RemoveBladeExtension | src/ACFBlocks.php:197-208 | false (None) exactly when the name does not end in `.blade.php` (or that suffix plus one final newline); otherwise a stem without `-` and without newline |
| BlockSlug.RemoveBladeExtensionPlain | src/ACFBlocks.php:197-208 | for a name without newlines: None exactly when the suffix is missing, otherwise everything before the final `.blade.php` with every `-` removed |
| BlockSlug.RemoveBladeExtensionOfStem | src/ACFBlocks.php:197-208 | round trip: a hyphen-free, newline-free stem is returned from `stem.blade.php` |
| BlockSlug.FileSlug | src/ACFBlocks.php:71 | the slug of a template file never contains `-` |
| BlockSlug.FileSlugOfStem | src/ACFBlocks.php:71 | round trip: a lower-case, hyphen-free stem is the slug of `stem.blade.php` |
| BlockSlug.FileSlugRemovesEveryAcf | src/ACFBlocks.php:71 | every `acf-` is removed and the hyphen between the parts goes too: `acf-x-acf-y.blade.php` has slug `xy` |
| BlockSlug.FileSlugIgnoresCase | src/ACFBlocks.php:71 | for every name, lower-casing it first leaves its slug unchanged: the whole name is lower-cased before `acf-` removal and the suffix test |
| BlockSlug.UpperCaseTemplateName | src/ACFBlocks.php:71 | consequently an upper-case `X.BLADE.PHP` is accepted, with slug `x` |
| BlockSlug.FileSlugHasNoSlash | src/ACFBlocks.php:71 | a file name without `/` gives a slug without `/` |
| BlockSlug.FalsyStemIsSkipped | src/ACFBlocks.php:76-78 | a stem PHP reads as false ("" or "0") gives a slug the loop skips |
| BlockSlug.RegisteredNameIsSlug | src/ACFBlocks.php:127 | the registered `name` (`str_replace('acf-', '', $slug)`) equals the slug, since a slug has no `-` |
| BlockSlug.RenderSlug | src/ACFBlocks.php:219 | a block name without `/` and `-` is its own render slug |
| BlockSlug.RenderSlugRecoversFileSlug | src/ACFBlocks.php:219 | registration and rendering agree: if the block name handed to the renderer is `acf/` followed by the registered name, its render slug is the file slug |
| BlockDescriptor.CheckAssetPath | src/ACFBlocks.php:36-41 | a path starting with `styles` or `scripts` becomes its asset URI; any other path is unchanged |
| BlockDescriptor.Validate | src/ACFBlocks.php:108-114 | no error exactly when title and category are both non-empty; the title error when the title is empty (checked first), else the category error |
| BlockDescriptor.InSupports | src/ACFBlocks.php:152-185 | a `supports` key is present exactly when its gate header is non-empty, and then holds the value its header gives |
| BlockDescriptor.AddSupports | src/ACFBlocks.php:152-185 | the successive conditional assignments build exactly the `supports` map of the headers |
| BlockDescriptor.BuildBlockData | src/ACFBlocks.php:116-185 | the record the loop body builds, after the asset rewrite, is the template's descriptor |
| BlockDescriptor.DescriptorCopiesHeaders | src/ACFBlocks.php:126-144 | title, description, category, icon, align and enqueue_assets are copied unchanged; example mode is "preview" |
| BlockDescriptor.DescriptorMode | src/ACFBlocks.php:133 | `mode` is the header when truthy, else "preview"; it is never falsy |
| PhpStrings.JoinSplit | src/ACFBlocks.php:132 | joining the pieces of `explode(' ', s)` with a space gives back `s` |
| BlockDescriptor.KeywordsRoundTrip | src/ACFBlocks.php:132 | joining `keywords` with a space gives back the header; no keyword holds a space; an empty header gives `[""]` |
| BlockDescriptor.PostTypesPresence | src/ACFBlocks.php:147-150 | `post_types` is present exactly when its header is non-empty, and then its space join is the header |
| BlockDescriptor.SupportsAlign | src/ACFBlocks.php:152-155 | `supports.align` is absent for an empty header, true for "true", false for "false", and otherwise the list whose space join is the header |
| BlockDescriptor.SupportsFlags | src/ACFBlocks.php:157-185 | anchor, mode, jsx, align_text and multiple are each present exactly when their own header is non-empty, and true exactly when it is "true" ("false", "yes", "1" give false) |
| BlockDescriptor.SupportsAlignContentGate | src/ACFBlocks.php:177-180 | `align_content` is present exactly when the align-text header is non-empty; its value is the align-content header `=== 'true'`; setting only SupportsAlignContent adds nothing |
| BlockDescriptor.SupportsEmpty | src/ACFBlocks.php:152-185 | `supports` is empty exactly when all six gate headers are empty |
| BlockDescriptor.EnqueueRewrite | src/ACFBlocks.php:116-123 | only the style and script paths under `styles`/`scripts` are rewritten; enqueue_assets never is |
| BlockDescriptor.MinimalHeaders | src/ACFBlocks.php:126-150 | a template with only a title and a category registers with mode "preview", keywords `[""]`, no `post_types` and no `supports` |
| BlockRegistration.HeaderPathPlain | src/ACFBlocks.php:81 | when `acf/` does not occur in `dir/` and the file name has no `/`, the headers are read from the template's own path `dir/filename` |
| BlockRegistration.AcfDirectoryHeaderPath | src/ACFBlocks.php:81 | in a directory `parent/acf`, the headers of `filename` are read from `parent/filename`, one level up |
| BlockRegistration.AcfDirectoryTemplateUnreadable | src/ACFBlocks.php:71-84 | so a plain template `stem.blade.php` in `parent/acf` is unreadable whenever `parent/stem.blade.php` does not exist, whatever the template holds |
| BlockRegistration.EntryStep | src/ACFBlocks.php:69-188 | an entry is skipped exactly when it is a dot entry, a directory, or its slug is false, "" or "0"; any other entry is unreadable exactly when its header path is not an existing file, and then names that path |
| BlockRegistration.DirectoryPass | src/ACFBlocks.php:58-63 | a directory's pass ends at `DirectoryMissing` exactly when the resolved directory is "" or does not exist |
| BlockRegistration.Scan | src/ACFBlocks.php:68-190 | a directory scan never ends at `DirectoryMissing`, and registers at most one record per entry |
| BlockRegistration.BlockTypeRegistry.Register | src/ACFBlocks.php:188 | registering appends the record to the registry's log |
| BlockRegistration.HandleEntry | src/ACFBlocks.php:69-188 | one entry either registers its record, or ends the pass (with its `die` message or at its unreadable header path) and registers nothing, or is skipped |
| BlockRegistration.ScanDirectory | src/ACFBlocks.php:66-190 | the entry loop appends exactly the records of the directory's scan and ends as the scan does |
| BlockRegistration.HandleDirectory | src/ACFBlocks.php:58-190 | one directory returns early when missing, otherwise appends its scan's records |
| BlockRegistration.CreateBlocks | src/ACFBlocks.php:48-192 | the registry's log grows by exactly the records of the registration pass, in order, and the method ends as the pass does |
| BlockRegistration.EntryDies | src/ACFBlocks.php:81-114 | a template whose header file exists dies exactly when that file's title or category is empty: with the title message when the title is empty, otherwise with the category message |
| BlockRegistration.RegisteredEntry | src/ACFBlocks.php:71-144 | a registering entry's header path is an existing file; the entry is described by the headers read from it (`dir/filename` with every `acf/` removed) under its file slug, and its record is well formed |
| BlockRegistration.FatalStepEndsScan | src/ACFBlocks.php:81-114 | a `die` or an unreadable header file at entry k ends the scan without completing; nothing from entry k onwards is registered |
| BlockRegistration.FatalEntryEndsScan | src/ACFBlocks.php:81-114 | a fatal or unreadable template ends its directory's scan, which registers only the records of the entries before it |
| BlockRegistration.DiedAtSomeStep | src/ACFBlocks.php:108-114 | the message a scan dies with is the message of one of its entries |
| BlockRegistration.ScanWithoutFatal | src/ACFBlocks.php:68-190 | without a fatal or unreadable entry, a scan completes and registers exactly the registering entries, in order |
| BlockRegistration.ScanRegistersWellFormed | src/ACFBlocks.php:68-190 | every record a directory scan registers is well formed |
| BlockRegistration.RegisteredAreWellFormed | src/ACFBlocks.php:57-191 | every registered record has a title, a category, a non-empty hyphen-free name, a mode, and example mode "preview" |
| BlockRegistration.RunStopsAt | src/ACFBlocks.php:57-63 | a directory whose pass does not complete ends the outer loop; no later directory runs |
| BlockRegistration.MissingDirectoryEndsPass | src/ACFBlocks.php:60-63 | a missing directory, "" included, ends the pass without completing; only the directories before it register records |
| BlockRegistration.FatalEntryEndsPass | src/ACFBlocks.php:81-114 | a scan that ends at a fatal or unreadable template ends the whole pass without completing; no later directory is scanned |
| PhpValues.ArrayFilterMembers | src/ACFBlocks.php:248 | `array_filter` keeps exactly the truthy entries |
| BlockRender.ClassEntries | src/ACFBlocks.php:229-235 | the class list has exactly four entries |
| BlockRender.RenderBlock | src/ACFBlocks.php:217-248 | the context has the block's keys plus the render keys. Other keys are unchanged. It sets slug, className (default ''), anchor (default '' unless set), post_id, is_preview and content. `classes` is the joined class string |
| BlockRender.ClassListShape | src/ACFBlocks.php:229-248 | the filtered class list is: the slug unless "" or "0", the class name unless falsy, "is-preview" exactly in preview, then `"align".align` |
| BlockRender.ClassStringEndsWithAlign | src/ACFBlocks.php:233-248 | the class string always ends with `"align".align` |
| BlockRender.ClassStringTokens | src/ACFBlocks.php:248 | when the slug, class name and alignment contain no space, splitting the class string on spaces gives back the filtered classes |
| BlockRender.PreviewClass | src/ACFBlocks.php:232 | "is-preview" is among the classes exactly in preview, when neither the slug nor the class name is itself "is-preview" |
| BlockRender.PlainBlockClasses | src/ACFBlocks.php:229-248 | a block without class name or alignment, outside preview, gets the classes "<slug> align" |

## Left out

- Filesystem and host access are parameters of `Host`:
  - the `DirectoryIterator` listing;
  - `file_exists`;
  - `resource_path`/`locate_template`;
  - the header reader `get_file_data`;
  - the asset URI lookup (`\Roots\asset(...)->uri()` / `\App\asset_path`).
- A directory listing is taken in the order the host gives; `DirectoryIterator` order is not modelled.
- `file_exists` on the directory is modelled as "the resolved path is not empty and has a listing". A path that exists but is not a directory, which makes `DirectoryIterator` throw, is not modelled.
- `file_exists` on the header path is modelled as "the path is not empty and has headers". A header path that names a directory is not modelled.
- The header parser of `get_file_data` (comment scanning, trimming) is not modelled. A file's headers are given.
- The missing-header-file case follows PHP 8, where `get_file_data('')` throws. Under PHP 7 it would warn and read all-empty headers, and the template would die with the title message instead. That older behaviour is not modelled.
- The template-directory filter (`sage-acf-gutenberg-blocks-templates`, src/ACFBlocks.php:54) is not modelled as a function: the directory list it yields is the unconstrained `directories` parameter of `CreateBlocks`. The service provider hooks `blockDirectories` onto it (src/ACFBlocksServiceProvider.php:44), which contributes `['block-views']`; other code may add more.
- The two register-data filters (src/ACFBlocks.php:188) and the two block-data filters of `renderBlock` (src/ACFBlocks.php:245) are taken as the identity.
- `die` and its translation `__(...)` are modelled as the pass ending `Died(message)` carrying the untranslated message. The uncaught `ValueError` of an unreadable header file is the ending `HeaderReadFailed(file)`; the exception's text is not modelled.
- BlockDescriptor.Descriptor: the `render_callback` entry of the registration record is not recorded; it is the same callable for every block.
- BlockDescriptor.CheckAssetPath: the Sage-version switch (`isSage10`) between the two asset helpers is folded into the one `assetUri` parameter.
- BlockRender.RenderBlock: does not model the following:
  - the `require` of the block-controller file (lines 238-242), which is dynamic code loading;
  - the view loop after the class string (lines 250-275): view lookup, `echo` of inline styles and templates.
- BlockRender.RenderBlock: a missing `name` or `align` key reads as null, as in PHP, but the warning PHP emits is not modelled.
- BlockRender.RenderBlock: a non-string `name` is converted with PHP's string conversion; `str_replace` on an array subject is not modelled.
- `renderPartial`, `getSpacingConfig`, `isSage10`, `template`, `locateThemeTemplate` and the constructor are thin wrappers over the view engine, WooCommerce or the container.
- `ACFBlocksServiceProvider` only wires the container and hooks; it is not part of this model.
- PhpStrings.ToLower: `strtolower` is modelled as ASCII-only, as in PHP 8.2 and later; locale-dependent lower-casing in older PHP versions is not modelled.
- The CustomFields and Disabled headers are read but never used by the code; they are carried in the headers and otherwise ignored.
