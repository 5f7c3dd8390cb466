# Social Cookbook: a Dafny model of its photo, storage and page rules

Social Cookbook is a Tornado web application. Users write recipes, clip them
and attach a photo. The photo is transcoded by ImageMagick into two variants
and stored on Amazon S3 behind CloudFront, under the SHA-1 of its content.
This project models three parts of it and proves properties about them:

- **images.py.** The decisions `resize_image` takes around the engine:
  - the ratio, and whether to resize (rounding half up);
  - the output format and its MIME type;
  - flattening onto white, and the centred crop;
  - the JPEG quality;
  - the decode failure with its hex excerpt.

  The engine calls are a `Wand` class whose methods update its fields. The
  pipeline runs against it.
- **aws.py.** The S3 client:
  - the StringToSign and the Authorization header of AWS signature version 2 (`_auth_header`);
  - `_default_headers`, and the request `put_object` builds;
  - what `put_cdn_content` prepares: the MIME default, the content key, the file-name guard and sanitising, and the five CDN headers plus Content-Disposition.
- **cookbook.py.** The application rules:
  - the upload handler: 404, 403, the 300-pixel gate, and the two-leg join of `on_upload` as a class holding the shared `resized` dict;
  - the slug of `create_recipe` with its retry loop;
  - the sentence `friend_list` writes, and the selection `HomeHandler.get` renders;
  - the same-host check of `LoginHandler.get`;
  - the rows `update_friends` writes, and `cdn_url`.

A Python dict is modelled as its keys in iteration order plus a map from key
to value. Storing an existing key keeps its place; a new key comes last.
SHA-1, HMAC-SHA1, base64 and `mimetypes.guess_type` are function values.
The engine's decoder, the clock (as formatted date strings), tornado's
`xhtml_escape`, the rows the database returns and whether a file name is a
`unicode` or a byte string are parameters.

Files:

- `wrappers.dfy`: `Option` and `Result`.
- `text.dfy`: string helpers: hex, ASCII case, strip, split, join, decimal, byte-wise order, sort and `quote_plus`.
- `images.dfy`, `aws.dfy`, `cookbook.dfy`: one module per source file.

Where the code and its documented intent differ, the model follows the code:

- **Crop offsets.** They are computed with Python 2's integer `/`, which floors. When the picture is smaller than the box, the offset is negative and rounded down, not toward zero.
- **Upload join.** The join in `on_upload` has no guard against a repeated completion. A callback arriving after both legs are in would save the photo row again. `Cookbook.UploadJob.OnUpload` states exactly that.
- **Failed leg.** There is no "failed" state. On an S3 error, `on_put` in aws.py:104-107 calls `logging.error` before `callback(None)`, but aws.py does not import `logging`. So a failed put raises `NameError` and never calls back, and the upload job stays incomplete: no row is saved and no redirect is sent. A successful put always calls back with a non-empty hex digest. The server-error branch of `Cookbook.UploadJob.OnUpload` models cookbook.py:243-244 as written; `put_cdn_content` never reaches it.

## Model

| member | source | states |
|---|---|---|
| Images.GetImageInfo | images.py:76-91 | fails exactly when the engine cannot decode the data, carrying the hex of the first 32 bytes; otherwise reports MIME type `image/` plus the decoded format in lower case, and the decoded width and height |
| Images.Excerpt | images.py:97-99 | the excerpt is two lower-case hex digits per byte of the first 32 bytes (or all bytes when fewer), and decoding it gives those bytes back |
| Images.Ratio | images.py:103-106 | the scale factor: the larger of the two box-to-side quotients with crop, the smaller without; properties in `Images.RatioPositive` and `Images.RatioFitsOrCovers` |
| Images.PlanFor | images.py:108-150 | every decision `resize_image` takes for a given ratio: resize, format, flatten, crop box, quality, MIME type and final size; properties in the lemmas below |
| Images.ResizePlan | images.py:93-150 | the decisions for the ratio the picture and the box give |
| Images.TranscodeOf | images.py:145-150 | the dict `resize_image` returns for a decoded picture: the blob of the planned operations, the MIME type and the final size |
| Images.ResizeImageData | images.py:93-152 | an undecodable input fails with the excerpt; a decoded one yields the blob, MIME type and size the resize plan describes |
| Images.RunPlan | images.py:100-150 | the engine calls (strip, resize, flatten into a new wand, crop around the current centre, quality, format, blob) produce exactly the planned operations, format, quality and final size |
| Images.Wand.Read | images.py:97-101 | a fresh wand holds the decoded size and format and no operations |
| Images.Wand.StripImage | images.py:102 | records the strip and leaves the size and settings unchanged |
| Images.Wand.ResizeImage | images.py:115-117 | the picture takes exactly the requested size |
| Images.Wand.FlattenImages | images.py:121-128 | a new wand with the same picture and settings, flattened onto white |
| Images.Wand.CropImage | images.py:130-133 | the size becomes the overlap of the box with the picture |
| Images.Wand.SetCompressionQuality | images.py:135-137 | sets the quality and nothing else |
| Images.Wand.SetFormat | images.py:139 | sets the output format and nothing else |
| Images.Wand.GetImageBlob | images.py:140-143 | the blob carries the source, the operations, the format and the quality |
| Images.HalfUp | images.py:116 | `int(ratio * n + 0.5)` rounds the exact scaled side half up |
| Images.RatioPositive | images.py:103-106 | the ratio of a positive box is positive |
| Images.RatioFitsOrCovers | images.py:103-106 | without crop the ratio is the largest scale at which the picture fits the box; with crop it is the smallest at which it covers the box |
| Images.ResizeDecision | images.py:113-119 | a resize happens exactly when the ratio is below one or it is forced; it then targets JPEG at the half-up scaled size, and never enlarges unless forced |
| Images.FitsWithinBox | images.py:103-119 | without crop the output never exceeds the box, resized or not |
| Images.OutputFormat | images.py:108-119 | the output is GIF, JPEG or PNG, an allowed format survives without a resize, and the MIME type is `image/` plus the format in lower case |
| Images.FlattenBeforeCrop | images.py:121-133 | the picture is flattened exactly when the output format differs from the source's, and the flatten precedes the crop |
| Images.OpsOrder | images.py:121-133 | in any plan's operation list, a flatten appears exactly when planned and before every crop |
| Images.CentredCrop | images.py:130-133 | the crop box has the requested size and is centred on the resized picture (margins differ by at most one pixel); after a resize it lies inside the picture and the output has exactly the requested size |
| Images.QualityOnlyForJpeg | images.py:135-137 | a compression quality is set only for JPEG output, and it is the requested one |
| Images.SmallPictureKept | images.py:113-119 | a picture that fits the box in an allowed format comes out unchanged in size and MIME type, as `get_image_info` reports them |
| Images.ShrinkExample | images.py:103-119 | a 1000x500 picture in an 800x800 box becomes an 800x400 JPEG |
| Text.QuotePlusRoundTrip | aws.py:133 | `quote_plus` of a byte string is undone by unquoting |
| Text.SortSorted | aws.py:125 | `sorted` yields names in non-decreasing byte order |
| Text.SortMembers | aws.py:125 | `sorted` keeps exactly the names it was given |
| Text.Sort | aws.py:125 | `sorted` on header names, as an insertion sort under byte-wise order; properties in `Text.SortSorted` and `Text.SortMembers` |
| Text.QuotePlus | aws.py:133 | `urllib.quote_plus`: letters, digits and `_.-` kept, space to `+`, every other byte as `%XX`; never shorter than its input |
| Text.HexRoundTrip | aws.py:89 | the hex encoding of `hexdigest` and `b2a_hex` loses nothing: decoding it gives the bytes back |
| Aws.Set | aws.py:48-50 | `d[k] = v` stores v under k, changes no other key, keeps an existing key's place and appends a new one |
| Aws.SetAllGet | aws.py:120-124 | after `dict.update` with pairs, a key holds the value of its last pair, or its old value when no pair has it |
| Aws.UpdateGet | aws.py:116 | after `update(custom)` a key has its custom value if any, and its old value otherwise |
| Aws.SignedHeaders | aws.py:120-124 | the signed dict: the three special names with "", updated with the lower-cased signed headers; properties in `Aws.SignedLookup` and `Aws.SignedKeys` |
| Aws.DefaultHeadersGet | aws.py:112-117 | the headers are the Date default overridden by the custom ones, with nothing else added |
| Aws.DefaultHeaders | aws.py:112-117 | a Date header, then the custom headers stored over it; a valid dict; its lookups are stated by `Aws.DefaultHeadersGet` |
| Aws.SignedLookup | aws.py:120-124 | the signed dict holds, under each signed lower-cased name, the last value given for it in any case, "" for an absent special header, and nothing else |
| Aws.SignedKeys | aws.py:120-124 | the signed names are content-md5, content-type and date, then the x-amz- names in order of appearance |
| Aws.SortSpecialFirst | aws.py:125 | sorting puts the three special names before every x-amz- name |
| Aws.AppendLines | aws.py:128-132 | the loop appends one line per name in order: `name:value` for x-amz- names, the bare value otherwise |
| Aws.BuildStringToSign | aws.py:127-133 | the buffer is the method, the lines of the sorted signed names, then `/bucket/quote_plus(key)` |
| Aws.StringToSign | aws.py:119-133 | the StringToSign `_auth_header` builds; its shape is stated by `Aws.StringToSignShape` |
| Aws.AuthValue | aws.py:135-137 | the Authorization value: `AWS id:` and the stripped base64 of the HMAC-SHA1 of the StringToSign under the secret |
| Aws.AuthHeader | aws.py:119-137 | the header is `AWS id:` followed by the stripped base64 of the HMAC-SHA1 of the StringToSign under the secret |
| Aws.StringToSignShape | aws.py:119-133 | the StringToSign is the method, then the md5, type and date values ("" when absent), then one `name:value` line per x-amz- header in sorted order with its last value, then the resource; the names come in sorted order |
| Aws.SameSignedSameString | aws.py:120-124 | two header lists that agree item by item on what is signed give the same StringToSign |
| Aws.NameCaseIrrelevant | aws.py:120-124 | renaming headers case-wise does not change the StringToSign |
| Aws.UnsignedHeaderIrrelevant | aws.py:120-124 | setting a header whose lower-cased name is not signed leaves the StringToSign unchanged |
| Aws.LengthUnsigned | aws.py:48-50 | Content-Length is not signed, so the Authorization computed after it covers the same StringToSign |
| Aws.PutObject | aws.py:46-53 | a PUT to the bucket host and key with the body, Content-Length set to the body length, Authorization signed over the headers exactly when an access key id is set, and every other header as `_default_headers` left it |
| Aws.MimeFor | aws.py:73-76 | the given MIME type, else the guess from a non-empty file name, else `application/unknown`; never empty |
| Aws.DefaultMime | aws.py:73-76 | the steps of `put_cdn_content` compute that MIME type |
| Aws.ContentKey | aws.py:89 | the key is lower-case hex, two digits per digest byte, and decoding it gives the SHA-1 digest of the MIME type, `|` and the data |
| Aws.ContentKeyUnquoted | aws.py:89 | the content key needs no quoting, so the signed resource is the key itself |
| Aws.ReplaceControl | aws.py:93 | blanking keeps the length and turns exactly the characters below a space into spaces |
| Aws.UnsafeName | aws.py:93 | the guard as written: the name differs from itself with control characters blanked and cut to 4000; characterised by `Aws.UnsafeNameIff` |
| Aws.UnsafeNameIff | aws.py:92-94 | a file name is refused exactly when it is longer than 4000 characters or holds a control character |
| Aws.SanitizedClean | aws.py:95-98 | a sanitised name holds no slash, backslash or double quote, and has no white space at either end: Python 2's Unicode white space for a `unicode` name, ASCII white space for a byte string |
| Aws.TrailingWhiteDropped | aws.py:97-98 | trailing white space of the name never reaches the sanitised name, so for a `unicode` name a trailing U+00A0 or U+3000 is dropped as well |
| Aws.SanitizeName | aws.py:95-98 | the last `/` segment, then the last backslash segment, without double quotes, stripped of Unicode or ASCII white space according to `isinstance(file_name, unicode)`; properties in `Aws.SanitizedClean` and `Aws.TrailingWhiteDropped` |
| Aws.CheckFileName | aws.py:92-99 | an unsafe non-empty name raises, with the name; otherwise a non-empty name is sanitised and an empty or absent one passes through |
| Aws.CdnHeaders | aws.py:82-88 | the header dict literal of `put_cdn_content`, a valid dict; its contents are stated by `Aws.CdnHeadersGet` |
| Aws.CdnCustom | aws.py:82-102 | the headers handed to `put_object`: the CDN dict, plus Content-Disposition for a non-empty sanitised name; a valid dict |
| Aws.CdnHeadersGet | aws.py:82-88 | the CDN dict holds exactly Content-Type, Expires, Cache-Control, Vary and x-amz-acl with their values |
| Aws.CdnFiveLanded | aws.py:82-88 | the five CDN headers reach the request with their values |
| Aws.DateAndDispositionLanded | aws.py:100-102 | the Date default reaches the request, and Content-Disposition is there exactly for a non-empty sanitised name |
| Aws.AuthorizationLanded | aws.py:49-50 | the CDN request is signed exactly when there is an access key id |
| Aws.PutCdnContent | aws.py:55-110 | fails exactly for an unsafe non-empty file name; otherwise puts the data under its content key with the defaulted MIME type, the CDN headers, Date, Content-Length, Content-Disposition exactly for a non-empty sanitised name, Authorization exactly with an access key id and then signed over the default headers of the CDN dict, and no other header |
| Cookbook.Post | cookbook.py:212-240 | 404 for a missing recipe, 403 for someone else's recipe that has a photo, the decode error, a redirect with the message when the full variant is under 300 pixels on a side, otherwise both variants go to upload |
| Cookbook.SmallSourceRefused | cookbook.py:218-230 | a source under 300 pixels on a side is always refused, because the full variant is never enlarged |
| Cookbook.FittingSourceAccepted | cookbook.py:218-230 | a source between 300 and 800 pixels on both sides keeps its size and is accepted |
| Cookbook.VariantsFit | cookbook.py:218-223 | the full variant fits 800x800 and the thumbnail 300x800 |
| Cookbook.UploadJob.constructor | cookbook.py:231-232 | both variants start not uploaded, with nothing saved |
| Cookbook.UploadJob.OnUpload | cookbook.py:242-249 | a missing hash is a server error with no state change; otherwise only the leg's own flag and hash are set, and the photo row is saved and the recipe page returned exactly when both legs are in |
| Cookbook.UploadBothLegs | cookbook.py:233-249 | with both hashes, in either order, the first completion waits and the second saves exactly one row with each variant's own hash and size; a leg without a hash fails, and then nothing is saved |
| Cookbook.SlugBase | cookbook.py:558-560 | spaces to dashes, lower case, only ASCII letters, digits and dashes kept, cut to 90; properties in `Cookbook.SlugBaseShape`, `Cookbook.SlugBaseKeeps` and `Cookbook.SlugBaseIdempotent` |
| Cookbook.Slug | cookbook.py:564 | the slug of attempt `tries`: the base, then the base with `-1`, `-2`, ...; distinctness in `Cookbook.SlugsDistinct` |
| Cookbook.KeepSlugCharsMembers | cookbook.py:559-560 | the filter keeps exactly the ASCII letters, digits and dashes, as a set of characters |
| Cookbook.KeepSlugCharsAppend | cookbook.py:559-560 | the filter works character by character: filtering a concatenation concatenates the filtered parts, so order and repetitions are kept |
| Cookbook.KeepSlugCharsOne | cookbook.py:559-560 | a single character is kept exactly when it is an ASCII letter, a digit or a dash |
| Cookbook.SlugBaseShape | cookbook.py:558-560 | a slug base is at most 90 characters of lower-case letters, digits and dashes |
| Cookbook.SlugBaseKeeps | cookbook.py:558-560 | a title that already has the shape of a slug base is kept as it is |
| Cookbook.SlugBaseIdempotent | cookbook.py:558-560 | the base of a slug base is itself |
| Cookbook.SlugsDistinct | cookbook.py:564 | different attempts never try the same slug |
| Cookbook.CreateSlug | cookbook.py:561-571 | the loop ends on the first attempt whose slug is not already in the table; every earlier attempt was taken, and there are at most as many failures as taken slugs |
| Cookbook.UserLink | cookbook.py:169-175 | `user_link`: "You" or "you" for the signed-in user when `you` is set, the user's name otherwise, escaped and inside a link to the user's profile |
| Cookbook.FriendList | cookbook.py:156-167 | `friend_list`: one friend alone, up to `size + 1` friends all named with the last after " and ", more than that the first `size` named and the rest counted; properties in `Cookbook.FriendListNames`, `Cookbook.FriendListOrder`, `Cookbook.FriendListCounts` and `Cookbook.ThreeFriends` |
| Cookbook.FriendListNames | cookbook.py:156-167 | every friend the sentence names appears in it, written by `user_link` and capitalised exactly when first |
| Cookbook.FriendListOrder | cookbook.py:156-167 | the named friends appear in list order: each is directly followed by the next, with ", " between them, except " and " before the last friend of a list named in full |
| Cookbook.FriendListCounts | cookbook.py:159-161 | when friends are counted, the count covers everyone not named, is at least two, and ends the sentence |
| Cookbook.ThreeFriends | cookbook.py:163-167 | three friends with the default size read: the first capitalised, a comma, the second, " and ", the third, each by `user_link` with `you` set |
| Cookbook.ExcludeIdsMembers | cookbook.py:192-193 | the filter keeps exactly the recipes whose id is not excluded |
| Cookbook.ExcludeIdsAppend | cookbook.py:192-193 | the filter works recipe by recipe: filtering a concatenation concatenates the filtered parts, so the query's order is kept |
| Cookbook.ExcludeIdsOne | cookbook.py:192-193 | a single recipe is kept exactly when its id is not excluded |
| Cookbook.Take | cookbook.py:194-200 | a slice `[:n]` is a prefix of the list holding its first n items, or all of them when there are fewer |
| Cookbook.HomeSelection | cookbook.py:186-206 | the lists `HomeHandler.get` renders, or the empty page; properties in `Cookbook.HomeFriendsNotOwn`, `Cookbook.HomeBounds` and `Cookbook.HomeEmptyIff` |
| Cookbook.HomeFriendsNotOwn | cookbook.py:186-206 | friends' recipes on the page are a prefix of the query's result filtered of the user's own ids, so each is a queried recipe whose id is not the user's |
| Cookbook.HomeBounds | cookbook.py:194-200 | the page keeps all the user's recipes; it shows as many friends' recipes as remain after filtering, up to 6, 4 or 2 (the user has none, fewer than four, or four or more); and it shows the user's first 2 beside friends' recipes or first 4 alone |
| Cookbook.HomeEmptyIff | cookbook.py:201-203 | the empty page shows exactly when the user has clipped nothing and fewer than two friends' recipes remain |
| Cookbook.LoginCheck | cookbook.py:411-417 | no `next` starts the login, a `next` on another host is a 404, and a same-host one proceeds; characterised by `Cookbook.LoginSameHost` |
| Cookbook.LoginSameHost | cookbook.py:411-417 | login proceeds exactly for a URL of the form `http://host/...` or `https://host/...` |
| Cookbook.OtherHostRefused | cookbook.py:414-417 | a URL on another host is refused, whatever the scheme |
| Cookbook.FriendRows | cookbook.py:534-535 | two rows per friend |
| Cookbook.UpdateFriends | cookbook.py:526-538 | nothing for an empty list or no known ids, else the rows for the known ids, which the `WHERE id IN (...)` query draws from the given ids; properties in `Cookbook.UpdateFriendsWrites` and `Cookbook.FriendRowsSymmetric` |
| Cookbook.FriendRowsSymmetric | cookbook.py:534-535 | the rows pair the user with exactly the known friends in both directions |
| Cookbook.UpdateFriendsWrites | cookbook.py:526-538 | rows are written exactly when the list is non-empty and some id is a known user, then two per known id, and every row pairs the user with one of the given ids |
| Cookbook.CdnUrl | cookbook.py:835-836 | `http://`, the CloudFront host, `/` and the object key; inverse in `Cookbook.CdnUrlKey` |
| Cookbook.CdnUrlKey | cookbook.py:835-836 | the object key is the last path segment of its CDN URL |
| Cookbook.CdnUrlOfContent | cookbook.py:835-836 | a content key from `put_cdn_content` is recovered from its URL |

## Left out

- The ImageMagick engine itself: pixels, wand lifetimes, `DestroyMagickWand` and `MagickRelinquishMemory`. The engine is the `Wand` class, which records operations and sizes.
- Images.ResizePlan: requires a positive box. With a zero bound the engine would be asked for a zero-sized picture, whose behaviour is not modelled. Every caller in the application passes positive bounds.
- Images.Wand.ResizeImage: takes any target size. The engine's handling of a zero-sized target, which arises when `ratio * side < 0.5`, is not modelled.
- Images.Wand.CropImage: the engine's crop with a negative offset is modelled as keeping the overlap of the box with the picture.
- Floating point: the ratio is an exact real. Python's rounding of `max_height * 1.0 / height` is not modelled.
- The Unicode-to-UTF-8 encodes of the secret, the MIME type and the file name. Strings are sequences of characters.
- Unicode case mapping: `lower()` and `upper()` are modelled on ASCII only. This matters for a slug title with non-ASCII letters whose lower case is an ASCII letter.
- The HTTP fetch of `put_object`, the S3 response and the `on_put` callback. The model stops at the request. A failed put never calls back (see above), so the model has no callback for it.
- `email.utils.formatdate` and `time.time()`. The Date and Expires values are string parameters.
- Python 2 dict iteration order: a header dict's order is whatever order its keys are given in.
- Content-Length is modelled as the decimal string of the body length; the source stores an integer.
- The database: SQL, tornado.database, and the queries behind `get_recipe`, `get_recently_clipped_recipes` and the user lookup. Their results are parameters. For the slug, the unique column is the set of taken slugs.
- Facebook OAuth, the open-graph actions, the lint ping after an upload, templates, markdown, UI modules and `static/js/base.js`: none is part of this model.
- Cookbook.Post: returns both transcoded variants instead of issuing the two `put_cdn_content` calls. Those calls are modelled by `Aws.PutCdnContent`, and their callbacks by `Cookbook.UploadJob.OnUpload`. The `int()` parse of the recipe argument and the error-message cookie are left out.
- Cookbook.FriendList: `size` is a natural number; a negative size is not modelled. `xhtml_escape` is a parameter.
- `reverse_url` escaping is taken to be the identity, which it is on slugs.
- Cookbook.UpdateFriends: the ids the user table returns are a parameter.
