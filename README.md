# read-epub-with-gpt: paginator and retry wrapper in Dafny

The application reads an ePub book and shows it one page at a time. Next to
each page it shows a summary from a remote language model. Two pieces of
`app.py` hold real logic, and this project models both:

- **The paginator** (`divide_into_pages`, module `Paginator` in
  `paginator.dfy`). It takes the serialized `<p>`, `<div>` and `<section>`
  elements of the flattened book in reading order. One greedy pass packs them
  into page strings with a budget of `PAGE_SIZE` = 2000 characters.
  - The method `DivideIntoPages` keeps the source's loop and accumulators.
  - It returns the cut points of its pages as a ghost out-parameter.
  - It is proved to produce a pagination described by the declarative
    predicate `Greedy`, built from four parts:
    - `Partitioned`: every page is the concatenation of a run of whole
      elements, and the runs follow one another in order.
    - `WithinBudget`: every page fits the budget or holds a single element.
    - `Maximal`: a page was closed only because the next element would not
      fit.
    - `EmptyOnlyFirst`: the empty-page rule.
  - Lemmas about `Greedy` derive the rest:
    - coverage of the elements: the pages concatenated are the elements
      concatenated;
    - that each element is on exactly one page;
    - uniqueness, so the output depends on the elements alone;
    - an empty element list, an oversized single element, and a worked example.
- **The retry wrapper** (`retry_with_exponential_backoff` and its inner
  `wrapper`, module `Retry` in `retry.dfy`).
  - The decorated function is a script: `call(n)` is what the n-th call does.
    It returns a value (`Ok`), raises an error listed in `errors` (`Listed`),
    or raises any other error (`Other`).
  - `random(n)` is the value of the n-th `random.random()` draw.
  - The method `Wrapper` keeps the source's `while True` loop. It returns the
    outcome, the number of calls, and the sequence of delays it sleeps for.
  - It is proved against the loop-free predicate `Explains` and the delay
    recurrence `Delay`. Lemmas then give:
    - the exact number of calls and sleeps in each scenario, including a
      sleep rejected for a negative delay;
    - the closed form of the delays without jitter;
    - the growth bounds of the delays with jitter.

Three behaviours of the code are worth knowing, and the model follows the code
in each:

- **The empty first page.** `app.py:42` closes the accumulated page without
  checking that it holds anything. So when the first element alone is longer
  than 2000 characters, the paginator first emits an empty page
  (`OversizedSingleElement`). Closing a page only when the accumulator is
  non-empty would avoid that page. The empty page can only be the first page
  (`EmptyOnlyFirst`).
- **The give-up error.** `app.py:83-85` puts `max_retries` into the message,
  not the number of retries made (`MaxRetriesExceeded(p.maxRetries)`).
- **A negative delay.** `time.sleep` raises `ValueError` for a negative
  length. The sleep at `app.py:91` sits inside the `except errors` handler,
  so the sibling `except Exception` does not catch that error, and it ends
  the wrapper (`NegativeSleep`). This happens whenever a computed delay is
  negative, for example with a negative `initial_delay` and a positive
  `exponential_base`.

## Model

| member | source | states |
|---|---|---|
| Paginator.DivideIntoPages | app.py:32-53 | For non-empty elements, the pages and cut points satisfy `Greedy`. Each page is a run of whole consecutive elements, and the runs cover the input in order. Each page has at most `PAGE_SIZE` characters or holds exactly one element. A page followed by another element plus that element exceeds `PAGE_SIZE`. Only the first page can be empty, and it is empty exactly when the first element exceeds `PAGE_SIZE`. The pages concatenated in order are exactly the elements concatenated in order. `screen_size` plays no part. |
| Paginator.Coverage | app.py:39-51 | The pages of any partition, concatenated in order, give exactly the concatenation of the elements: nothing is dropped, duplicated or reordered. |
| Paginator.PageOf | app.py:39-48 | Every element index lies in the span of exactly one page, so no element is split across pages or placed twice. |
| Paginator.GreedyUnique | app.py:39-53 | Any two paginations of the same elements that both satisfy `Greedy` are equal, pages and cut points alike. The output is therefore a function of the elements and the budget. |
| Paginator.EmptyDocument | app.py:50-51 | An empty element list gives no page at all, because the trailing page is appended only when non-empty. |
| Paginator.OversizedSingleElement | app.py:42-47 | A single element longer than `PAGE_SIZE` gives exactly `["", e]`: an empty page, then the element kept whole. |
| Paginator.WorkedExample | app.py:39-51 | Elements of 500, 600, 700, 900 and 300 characters give two pages: the first three elements (1800 characters) and the last two (1200 characters). |
| Paginator.ShorterPage | app.py:42-48 | If two paginations start page j at the same element and the first ends it earlier, the first page j is empty, closed before an element longer than `PAGE_SIZE`, and the second page j holds exactly that element. This is the key step of uniqueness. |
| Retry.Wrapper | app.py:66-95 | The outcome and call count satisfy `Explains`. Every call but the last raised a listed error and was followed by a sleep of non-negative length. The last call decides the outcome: its value, its unlisted error unchanged, the "maximum number of retries" error once `max_retries` retries are spent, or the `ValueError` of a negative sleep. There are never more than max(`max_retries`, 0) + 1 calls. There is one sleep per retried error, and the n-th sleep lasts `Delay(n)`: the previous delay times `exponential_base * (1 + jitter * r)`, where `jitter` counts as 1 or 0 and `r` is that sleep's draw, starting from `initial_delay`. |
| Retry.ExplainsUnique | app.py:72-95 | The script and the draws determine the outcome and the call count: two explanations of the same script coincide. |
| Retry.SucceedsAfterListed | app.py:72-91 | Suppose k listed errors, with k ≤ `max_retries`, are followed by a value, and the first k delays are non-negative. The wrapper returns that value after exactly k + 1 calls and k sleeps. |
| Retry.OtherPropagates | app.py:93-95 | Suppose k listed errors, with k ≤ `max_retries` and the first k delays non-negative, are followed by an unlisted error. That error propagates unchanged after exactly k + 1 calls and k sleeps, with nothing after it. |
| Retry.GivesUp | app.py:79-85 | Suppose every call raises a listed error and no delay is negative. Then the wrapper raises the "maximum number of retries" error carrying `max_retries`. It does so after exactly `max_retries` + 1 calls and `max_retries` sleeps (one call and no sleep when `max_retries` < 0), and never calls more. |
| Retry.NegativeDelayRejected | app.py:88-91 | Suppose k + 1 listed errors, with k < `max_retries`, the first k delays non-negative and delay k + 1 negative. The wrapper ends with the rejected sleep after exactly k + 1 calls and k sleeps, and does not call again. |
| Retry.NegativeInitialDelay | app.py:88-91 | With `initial_delay` -1, `exponential_base` 2 and no jitter, a listed error followed by a value ends with the rejected sleep of -2 after one call and no sleep. The value is never returned. |
| Retry.DefaultGivesUp | app.py:58-61 | With the defaults and draws in [0, 1), a call that always fails is made 11 times with 10 sleeps, and the error carries 10. |
| Retry.NoJitterDelay | app.py:88-91 | Without jitter, the delay after n retries is `initial_delay * exponential_base^n`. |
| Retry.DelayNonNegative | app.py:88 | Suppose `initial_delay` and `exponential_base` are non-negative and every draw is in [0, 1). Then no delay is negative. |
| Retry.DelayGrowth | app.py:88-91 | Under the same assumptions, each retry multiplies the delay by at least `exponential_base` and by at most twice it. Without jitter the factor is exactly `exponential_base`. |

## Left out

- `read_epub_content` (app.py:17-29) is not modelled. It reads the ePub container, decodes UTF-8 with errors ignored, and parses HTML, all through third-party libraries.
- `find_all(["p", "div", "section"])` and `str(element)` (app.py:33, app.py:40) are not modelled. Their result is the input of `DivideIntoPages`: a sequence of non-empty strings, since a serialized tag always includes its own markup.
- `find_all(["p", "div", "section"])` (app.py:33) searches recursively: a matching element nested in another is returned as well, after its ancestor, whose serialization already contains it, so its text appears twice in the pages; and content outside those three tags (headings, lists, tables) is never returned. The paginator's properties, `Paginator.Coverage` included, are therefore about the list of elements, not about the text of the book.
- `summary_generator` (app.py:100-122) is the remote model call. It involves the network and an API key from the environment, so it is represented only as the script passed to `Wrapper`.
- `main` (app.py:125-155) is the Streamlit interface, the temporary file and the page-number widget. It is not modelled.
- `Retry.Wrapper` does not sleep. `time.sleep` is recorded as the returned sequence of delays.
- `Retry.Wrapper` draws no random numbers. `random.random()` is the parameter `random`, which is read once per sleep even when `jitter` is false, as Python evaluates both operands.
- `Retry.Delay` uses exact real arithmetic. Floating-point rounding, overflow to infinity and NaN in the delay product are not modelled, and neither is the error `time.sleep` raises for a delay too long for the platform. Only its rejection of a negative delay is modelled (`NegativeSleep`).
- `Retry.Wrapper`: the decorated function's arguments are not modelled. The script stands for the behaviour of successive calls with the same arguments.
- `Retry.Wrapper`: the `errors` tuple is represented by the script's tag for each raised error (`Listed` or `Other`), not by exception classes. Errors that are not `Exception`s, which the second handler would not catch, also propagate unchanged, so they are included in `Other`.
- `Retry.MaxRetriesExceeded` carries the number in the message, not the message text itself.
