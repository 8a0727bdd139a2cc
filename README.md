# meme_ocr: a verified model of the detection and feed logic

The script `main.py` scrapes image posts from a Reddit community with PRAW. It picks one image URL at random, downloads the image and looks for caption text. The detection thresholds the greyscale image at 250 and inverts it into a mask. The contours OpenCV finds are narrowed down to ones that look like text lines. The mask is cropped at each remaining bounding box, and every crop goes through Tesseract. The OCR texts are written newline-joined to one text file.

This project models the deterministic logic between those library calls and proves what it does:

- `Grids`: the per-pixel mask (`THRESH_BINARY_INV` at 250 followed by `255 - thresh`) and NumPy slicing as `crop_contours` uses it.
- `Contours`: the contour filter of `Image.get_text_boxes`. This loop removes contours from the list it is iterating over. Python's list iterator moves by index, so the contour right after a removed one slides into the current slot and is never tested. The model runs that loop literally (`FilterContours`, a `while` loop over a mutable sequence). `list.remove` removes the first equal element. The lemmas then say exactly which contours survive.
- `Texts`: `'\n'.join` and its inverse, `str.split('\n')`.
- `Feed`: the `Reddit` class, with the post filter of `scrape_sub_pictures` (posts whose `post_hint` is `'image'`, mapped to their preview URL) and `get_random_url` as a nondeterministic pick.
- `Pipeline`: the `Image` class, with `get_text_boxes`, `crop_contours` and `get_contour_texts` as methods that read and set its fields. `Detect` runs the three of them in the order `Image.__init__` does.
- `Results`, `Seqs`: the exceptions as values, and sequence helpers.

OpenCV, Tesseract, PRAW, the network, randomness and the file system are not modelled. Their results come in as parameters: the greyscale grid, the contours `cv2.findContours` returns (each with its `cv2.boundingRect` box), the listed posts, and the dilation and OCR functions.

What the lemmas establish about the contour loop:

- On distinct contours the loop's result is `Survivors(s)` (`WalkIsSurvivors`). That is the selection of `s` by `SurvivalFlags(s)`, so it keeps the input's order and is never longer (`SurvivorsAreSelected`).
- `Examined(s)` is the closed-form record of which input positions the loop reads, and `SurvivalFlags(s)` marks a position as surviving when it is unread, or read and passing both tests. These two functions are tied to the loop only through `SurvivorsAreSelected` and `WalkIsSurvivors`.
- About that record: the first contour is always read, and each next one is read unless the current one was just removed (`ExaminedStep`).
- The list comes back unchanged if and only if no contour is rejected (`SurvivorsUnchanged`).
- Every survivor passes both tests (`w >= h` and `100 * w >= 15 * width`) if and only if no two rejected contours are adjacent in the input (`SurvivorsPassIff`). In that case the result equals the plain filter `Accepted` (`SurvivorsAreAccepted`).

Some consequences of the code that the contracts make explicit:

- `THRESH_BINARY_INV` at 250 is strict, so a grey value of exactly 250 becomes 0 in the mask (`Grids.Mask`).
- The post filter tests `post_hint == 'image'` and nothing else; posts without the attribute or with another hint are dropped (`Feed.ImagePostsMembership`).
- The contour loop does not guarantee that every survivor passes both tests (see Findings).
- `'\n'.join` loses the boundaries between texts when a text contains a newline: splitting the file at newlines gives back the texts when none does (`Texts.SplitJoin`).

## Model

| member | source | states |
|---|---|---|
| Seqs.RemoveFirst | main.py:129 | `list.remove(x)` on a list holding `x` leaves one element fewer |
| Seqs.RemoveFirstMultiset | main.py:129 | `list.remove(x)` takes exactly one copy of `x` out of the list's multiset of elements |
| Seqs.RemoveFirstOfDistinct | main.py:129 | in a list of distinct contours, removing the contour read at index `k` removes position `k` |
| Grids.ThresholdBinaryInv | main.py:110 | inverse binary threshold keeps the shape of the image |
| Grids.Invert | main.py:111 | `255 - thresh` keeps the shape of the image |
| Grids.Mask | main.py:110-111 | same shape as the greyscale image; a pixel is 255 exactly when the grey value is above 250 and 0 exactly when it is at most 250, so no other value occurs |
| Grids.MaskIsBinaryThreshold | main.py:110-111 | the double inversion equals a plain `THRESH_BINARY` at 250 with maximum 255 |
| Grids.MaskShape | main.py:110-112 | the mask of a height by width image is height by width |
| Grids.Slice | main.py:149 | NumPy slice with non-negative bounds: the bounds clamped to the length, element `i` is `s[lo + i]` |
| Grids.CropShape | main.py:149 | a crop's shape is the box clamped to the image, and crop pixel (i, j) is image pixel (y + i, x + j) |
| Grids.Crop | main.py:149 | `g[y : y + h, x : x + w]`: as many rows as the row slice `g[y : y + h]` has, and row `i` is the column slice `x : x + w` of grid row `y + i` |
| Grids.CropInside | main.py:149 | a box inside the image gives `h` rows of `w` pixels with `crop[i][j] == thresh[y+i][x+j]` |
| Contours.Classify | main.py:127-135 | the height test is decided first; a contour is too tall iff `h > w`, too narrow iff `h <= w` and `100*w < 15*width`, kept iff it passes both |
| Contours.Walk | main.py:124-135 | the loop's exact behaviour, `list.remove` included, never lengthens the list |
| Contours.Accepted | main.py:124-135 | the plain filter: a contour is in it iff it is in the input and passes both tests |
| Contours.FilterContours | main.py:124-137 | the removal loop over a mutable list returns exactly `Walk(contours, 0)`, which is `Survivors(contours)` when the contours are distinct |
| Contours.WalkIsSurvivors | main.py:124-135 | on distinct contours, the loop started at index `k` keeps `s[..k]` and leaves `Survivors(s[k..])` after it |
| Contours.SurvivorsAreSelected | main.py:124-135 | the survivors are the input selected by the survival flags: a subsequence in input order, never longer |
| Contours.ExaminedStep | main.py:124-135 | the first contour is read; contour `i+1` is read iff contour `i` was not read-and-removed |
| Contours.SkippedAfterRemoval | main.py:128-130 | after a removal the next contour is never read and survives, and the removed one does not |
| Contours.SurvivorsUnchanged | main.py:124-137 | the list comes back unchanged iff no contour is rejected |
| Contours.SurvivorsPassIff | main.py:124-135 | every survivor passes both tests iff no two rejected contours are adjacent |
| Contours.SurvivorsAreAccepted | main.py:124-135 | with no adjacent rejected contours, the loop's result is the plain filter |
| Contours.AdjacentRejectSurvives | main.py:124-135 | a too-tall contour followed by a too-narrow one: the too-narrow one survives, though the plain filter keeps nothing |
| Texts.Join | main.py:187 | `'\n'.join`: a single text is written as it is |
| Texts.JoinLength | main.py:187 | the file's length is the texts' total length plus one separator for each pair of consecutive texts |
| Texts.JoinSnoc | main.py:187 | appending a text to the list appends one separator and then that text, so the file ends with the last text and has no trailing separator |
| Texts.JoinSplit | main.py:187 | joining the pieces of a split gives back the string |
| Texts.SplitJoin | main.py:187 | splitting the file at newlines gives back the texts when there is at least one and none contains a newline |
| Feed.ImagePosts | main.py:52 | the filtered listing is never longer than the listing |
| Feed.ImagePostsMembership | main.py:52 | a post is kept iff it is in the listing and its hint is present and equal to `'image'` |
| Feed.SourceUrls | main.py:53 | one URL per post |
| Feed.ImageUrlsInFeedOrder | main.py:52-53 | one URL per image post, in feed order: the first post contributes its URL iff it is an image post, then the rest follow |
| Feed.ImageUrls | main.py:52-53 | `image_urls`: one entry per filtered post, entry `i` being the source URL of the `i`-th image post |
| Feed.ImagePostsAppend | main.py:52 | filtering a concatenation concatenates the filtered parts |
| Feed.ImageUrlsAppend | main.py:52-53 | the URL list of a concatenation concatenates the URL lists |
| Feed.ImageUrlsMembership | main.py:52-53 | a URL is listed iff some image post of the feed carries it |
| Feed.InitializeAsWritten | main.py:33-41 | the arguments given to `praw.Reddit`: `client_id` gets the username, the rest their own fields |
| Feed.Initialize | main.py:33-41 | the evidently intended arguments: every argument from its own field |
| Feed.InitializeAsWrittenDropsClientId | main.py:35 | the two agree iff the client id equals the username; with different values the client id is lost |
| Feed.Reddit.constructor | main.py:24-31 | stores the credentials, builds the client arguments as written, with `image_urls` not yet set |
| Feed.Reddit.ScrapeSubPictures | main.py:44-55 | sets `image_urls` to the image posts' URLs of the listing |
| Feed.Reddit.GetRandomUrl | main.py:58-60 | fails with an AttributeError before scraping and with an empty-choice error on no URLs; otherwise returns an element of `image_urls` |
| Pipeline.Image.constructor | main.py:73-79 | stores the URL and the greyscale image; height is its row count and width its row length (0 for an empty image) |
| Pipeline.Image.GetTextBoxes | main.py:105-137 | sets `thresh` to the mask, of the image's height and width, and returns the loop's survivors of the found contours |
| Pipeline.Image.CropContours | main.py:140-152 | fails with the assertion iff there are no contours; otherwise one crop per contour in order, each `h` by `w` with the mask's pixels when the box is inside the image |
| Pipeline.Image.GetContourTexts | main.py:170-189 | one OCR text per crop in crop order, and the file contents are those texts joined by newlines when saving |
| Pipeline.Image.Detect | main.py:80-82 | contours, crops and texts in turn: fails iff no contour survives; otherwise one crop and one text per contour, in order, and the saved file is the newline-joined texts |

## Left out

- Image conversion, erosion, dilation and contour finding (main.py:109, 114-121) are OpenCV calls. The greyscale grid and the found contours with their bounding boxes are inputs instead.
- The 2x2 dilation and `pytesseract.image_to_string` (main.py:176-180) are function parameters, `dilate` and `tesseract`.
- `Image.draw_contours` (main.py:155-167) only draws rectangles and writes a file with OpenCV, so it is not modelled.
- Downloading, directory creation and `cv2.imread` (main.py:85-102) are network and file-system work. An image that fails to decode is not modelled.
- The text file write (main.py:183-187) is modelled as the returned file contents. The paths under `images/<uid>/` and the `uuid4` identifier (main.py:76-77) are not modelled.
- PRAW authentication and listing (main.py:33-49) are foreign. `_initialize` is modelled as the arguments it passes. The listed posts are a parameter to `ScrapeSubPictures`, so the subreddit name, category and limit are not modelled.
- The model assumes every post with hint `'image'` has a source URL. For a post without `preview`, PRAW would fetch the post and raise AttributeError. A `preview` without `'images'`, `'source'` or `'url'` gives a KeyError, and an empty `'images'` list gives an IndexError.
- `Reddit.ocr_meme` (main.py:63-67) is not modelled. Its default argument `self.get_random_url` names `self` while the class body is still being defined, so the module raises a NameError when it is loaded.
- Pipeline.Image.Detect: `Image.__init__` runs detection inside the constructor. Here the constructor covers main.py:75-79 and `Detect` covers main.py:80-82, because a failing crop cannot be reported from a constructor.
- Pipeline.Image.constructor: the attributes `thresh`, `contours`, `cropped_contours` and `contour_texts` start as empty values. In Python they do not exist until `__init__` sets them.
- Contours.Classify: the width test is the exact integer test `100 * w < 15 * width`. This idealises the double comparison `w < width * .15`: for any realistic image width the two can differ only where `100 * w == 15 * width`, and then only if the rounded product `width * .15` is not exactly `w`.
- Contours.FilterContours: contours are abstract values compared by value. The model does not cover NumPy's element-wise `==` inside `list.remove`. It also does not cover OpenCV 4 returning the contours as a tuple, which has no `remove`. The closed form `Survivors` is proved only for distinct contours.
- Feed.Reddit.GetRandomUrl: the random draw is a nondeterministic choice. Its uniform distribution is not modelled.
- `np.random.choice` returns a NumPy string. The model returns a plain string.

## Findings

The classes keep each behaviour as written, because they model the program. The corrected members stand beside them, each with its intended property proved and a lemma relating it to the code as written.

| source | as written | input that shows it | evidently intended | confidence | as-written member | corrected member |
|---|---|---|---|---|---|---|
| main.py:35 | `client_id = self.username` | username `"user"`, client id `"app-id"`: the client is built with client id `"user"` | `client_id = self.client_id` | high; not executed | Feed.InitializeAsWritten, shown by Feed.InitializeAsWrittenDropsClientId | Feed.Initialize |
| main.py:124-135 | `contours.remove(contour)` inside `for contour in contours` | image width 100, a 10 by 40 contour then a 10 by 5 contour: the second is never tested and survives, though it is too narrow | test every contour; keep exactly the ones passing both tests | high; not executed | Contours.FilterContours, shown by Contours.AdjacentRejectSurvives and Contours.SurvivorsPassIff | Contours.Accepted, related by Contours.SurvivorsAreAccepted |
