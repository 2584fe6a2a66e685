# Candidate-address generator, modelled in Dafny

The repository probes whether an email address is deliverable. It guesses
candidate addresses for a person with the `EmailGenerator` class of
`email_generator.py`. The class has two operations:

- `generer_variants_email(nom_propre, domaine)` splits a "Firstname Lastname"
  string into a given name and a family name and lower-cases both. It returns
  seven addresses at `domaine`, always in this order:
  1. `given.family`
  2. `givenfamily`
  3. `given.f`
  4. `givenf`
  5. `family`
  6. `f`
  7. `given`

  Here `f` is the family name's initial.
- `generer_emails_pour_noms_propres(noms_propres, domaine)` builds a dictionary
  from each name to its list of variants.

The model has three modules:

- `PyText` (`python_text.dfy`) holds the Python string operations the
  generator relies on:
  - `str.split()` with no argument, breaking on every character for which
    Python's `str.isspace()` holds;
  - `str.lower()` on the ASCII letters;
  - `str.replace(c, "")`.
- `PyDict` (`python_dict.dfy`) models a Python `dict` as a list of entries in
  insertion order, with no key repeated. `Assign` is `d[k] = v`: an existing
  key keeps its place and takes the new value, and a new key is appended.
- `EmailGenerator` (`email_generator.dfy`) holds the two operations. The
  exceptions the Python code raises become `Err` results:
  - `UnpackError(got)` is the ValueError from unpacking `split()` into two
    names when the name has a space but `got != 2` tokens.
  - `IndexError` comes from `noms[0]` when the name has no space character.
    In that case the code sets the family name to `''`. So every single-word
    name fails, even though line 9 gives it a fallback branch.

The generator succeeds exactly on the names for which `IsFullName` holds: a
space character somewhere, and exactly two whitespace-separated tokens.
Leading, trailing and repeated whitespace is accepted, because `split()`
drops it.

## Model

| member | source | states |
|---|---|---|
| `PyText.Split` | email_generator.py:9 | `split()` yields only non-empty, whitespace-free tokens. It yields no token exactly when the string is all whitespace. |
| `PyText.SplitJoin` | email_generator.py:9 | `split()` undoes `" ".join`: for every list of words `ws`, `" ".join(ws).split() == ws`. |
| `PyText.SplitKeepsText` | email_generator.py:9 | `split()` drops only whitespace: its tokens, concatenated, are exactly the non-whitespace characters of the input, in order. |
| `PyText.Lower` | email_generator.py:10-11 | `lower()` keeps the length and leaves no upper-case letter. A-Z become the same letter in lower case, and every other character is kept. The string is unchanged exactly when it had no upper-case letter. |
| `PyText.SplitLower` | email_generator.py:9-11 | Splitting the lower-cased name gives the lower-cased tokens of the name. |
| `PyText.Remove` | email_generator.py:12 | `replace(c, "")` leaves no `c` and keeps every other character with its count. The result equals the input exactly when the input has no `c`. |
| `PyText.RemoveAppend` | email_generator.py:12 | `replace(c, "")` works piece by piece: on a concatenation it gives the concatenation of the two results, so the kept characters stay in their order. |
| `PyText.RemoveChar` | email_generator.py:12 | On one character, `replace(c, "")` deletes it when it is `c` and keeps it otherwise. |
| `PyDict.Get` | email_generator.py:28-31 | A lookup finds a value exactly for the keys present, and it returns the value stored with that key. |
| `PyDict.Assign` | email_generator.py:31 | After `d[k] = v`, `k` maps to `v` and every other key keeps its value. An existing key keeps its position and a new key goes last. Storing the value a key already holds leaves the dictionary unchanged. |
| `PyDict.Unique` | email_generator.py:29-31 | Gives the first occurrences of a list, in order: no repeats, the same elements, ordered by the position of their first occurrence in the list, and the identity on lists without repeats. This is the key order of the dictionary the loop fills. |
| `EmailGenerator.SplitName` | email_generator.py:9 | The unpacking succeeds exactly when the name has no space or splits into two tokens. With no space, the result is the whole name and an empty family name. Otherwise the given name is the first `split()` token and the family name the second: two whitespace-free words that together hold all non-whitespace of the name. Any other case is an unpacking error that carries the token count. |
| `EmailGenerator.Address` | email_generator.py:16-22 | `f"{local}@{domain}"` ends in `"@"` plus the domain verbatim, and stripping that suffix gives back `local`. |
| `EmailGenerator.Variants` | email_generator.py:8-25 | Succeeds exactly on full names. A name with no space gives `IndexError`, and one with a space but not two tokens gives `UnpackError(count)`. On success the result has 7 addresses. Each ends in `"@"` plus the domain verbatim, and each local part is non-empty, whitespace-free and has no upper-case letter. |
| `EmailGenerator.VariantLayout` | email_generator.py:9-23 | For a full name with lower-cased tokens `p` and `n`, the local parts are, in order, `p.n`, `pn`, `p.n[0]`, `pn[0]`, `n`, `n[0]` and `p`. The space-stripped given name equals `p`. |
| `EmailGenerator.InitialsArePrefixes` | email_generator.py:16-22 | The local part of variant 3 is a prefix of variant 1's, variant 4's of variant 2's, and variant 6's of variant 5's. The given name (variant 7) is a prefix of variants 1-4. |
| `EmailGenerator.VariantsDomainIndependent` | email_generator.py:16-22 | The domain never influences anything but the suffix. The same names fail with the same error, and the local parts are the same for any two domains. |
| `EmailGenerator.VariantsOfFullName` | email_generator.py:9-23 | For words `G` and `F`, the name `"G F"` yields exactly the seven strings `g.f@d`, `gf@d`, `g.f0@d`, `gf0@d`, `f@d`, `f0@d` and `g@d`. Here `g` and `f` are the lower-cased words and `f0` is the initial of `f`. |
| `EmailGenerator.VariantsOfWords` | email_generator.py:9-18 | A name of one word fails with `IndexError`. Words joined by spaces fail with `UnpackError(k)` when there are `k >= 3` of them. |
| `EmailGenerator.VariantsIgnoreCase` | email_generator.py:9-11 | A name and its lower-cased form give the same result, whether success or the same error. |
| `EmailGenerator.EmailsForNames` | email_generator.py:27-32 | Succeeds exactly when every name is a full name. On success the keys are the names in order of first occurrence. |
| `EmailGenerator.EmailsLookup` | email_generator.py:29-31 | When every name is a full name, each name looks up to its own variants in the resulting dictionary, even if it appears more than once. |
| `EmailGenerator.FirstFailureAborts` | email_generator.py:29-30 | A failing call fails with the error of the first failing name, whatever names come after it. |
| `EmailGenerator.RepeatedNameChangesNothing` | email_generator.py:29-31 | Appending a name that is already in the list leaves the result unchanged, so duplicate names collapse to one entry. |
| `EmailGenerator.EmailsAsMap` | email_generator.py:27-32 | As a map, the result's key set is exactly the set of input names, and each key maps to `generer_variants_email` of that key. |
| `EmailGenerator.SameNamesSameMap` | email_generator.py:27-32 | Two lists with the same names, in any order and with any repeats, give the same map. |

## Left out

- The `__main__` demonstration block (email_generator.py:35-47) only prints to
  the console.
- The `EmailGenerator` constructor does nothing, so it is not modelled. The
  unused `itertools` import is also not modelled.
- `SMTPVerify` is not part of this model. Its source, `smtp_verify.py`, is not
  among the modelled files. `smtp_test.py` only tests it, through mocked DNS
  resolution, mocked SMTP sessions, random decoy names and printed output.
  Modelling the DNS lookup, the SMTP probe, the catch-all check or the
  verdict from those tests alone would mean inventing their implementation.
- `PyText.Lower`: does not model Unicode lower-casing, only A-Z. Python's
  `lower()` also maps non-ASCII capitals, sometimes to longer strings. Such
  characters are kept unchanged here, so `VariantsIgnoreCase` is stated for
  ASCII case only.
- The exception messages are not modelled. Only the exception kind is, plus
  the token count for the unpacking error.
- `EmailsForNames` takes the names as a sequence. The Python function accepts
  any iterable.
