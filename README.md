# CustomGradient, modelled in Dafny

This project models the gradient data structure of the Unity gradient editor:
`CustomGradient`, a list of colour keys, each a colour placed at a time. A key
is inserted before the first key with a strictly greater time, which keeps a
sorted list sorted and keeps keys at equal times in insertion order. The
gradient is evaluated by finding the first consecutive pair of keys that
encloses the requested time and blending their colours with a clamped
fraction. It is sampled into a strip of colours for the preview texture.

- `colours.dfy`, module `Colours`: Unity's `Color`, `Color.white`, `default(Color)`,
  `Mathf.Clamp01`, `Mathf.InverseLerp` and `Color.Lerp`. These are engine calls;
  they are written out with Unity's clamped semantics over reals.
- `gradient.dfy`, module `Gradients`: the `ColourKey` value and the specification
  functions over key sequences (`FirstBracketFrom`, `Bracket`, `EvaluateKeys`,
  `InsertionPoint`, `InsertKey`, `SampleTime`), with lemmas about them. It also
  holds the class `CustomGradient`, whose field `keys` is an
  `Option<seq<ColourKey>>`: `None` stands for a null list. `Evaluate`, `AddKey`
  and `GetTexture` are methods with the source's loops, proved against those
  functions. `NumberOfKeys` and `GetKey` are functions reading the object.

Behaviour of the code worth knowing up front:
- The key list starts empty (CustomGradient.cs:8).
- `Evaluate` blends the first consecutive pair of keys whose times enclose the
  query, or the first and the last key when no pair does (CustomGradient.cs:33-48).
- `AddKey` returns nothing (CustomGradient.cs:57).

## Model

| member | source | states |
|---|---|---|
| Colours.Clamp01 | GradientEditor/Assets/Scripts/CustomGradient.cs:53-54 | the clamped value lies in [0,1]; it is the input inside [0,1], 0 below and 1 above |
| Colours.InverseLerp | GradientEditor/Assets/Scripts/CustomGradient.cs:53 | the blend factor is always in [0,1] and is 0 when the two bracket times are equal |
| Colours.InverseLerpEnds | GradientEditor/Assets/Scripts/CustomGradient.cs:53 | the blend factor is 0 at the left bracket time and 1 at the right one when the two differ |
| Colours.InverseLerpMonotonic | GradientEditor/Assets/Scripts/CustomGradient.cs:53 | on an increasing bracket the blend factor never decreases as the time grows |
| Colours.InverseLerpRoundTrip | GradientEditor/Assets/Scripts/CustomGradient.cs:53-54 | inside a non-degenerate bracket, blending its two ends by the recovered factor gives the time back |
| Colours.LerpChannel | GradientEditor/Assets/Scripts/CustomGradient.cs:54 | one blended channel lies between its two ends; it is the left end at a factor of 0 or below, the right end at 1 or above, and unchanged when both ends agree |
| Colours.Lerp | GradientEditor/Assets/Scripts/CustomGradient.cs:54 | every channel of the blend lies between the two colours' channels; the blend is the left colour at a factor of 0 or below, the right colour at 1 or above, and a colour blended with itself is unchanged |
| Gradients.FirstBracketFrom | GradientEditor/Assets/Scripts/CustomGradient.cs:36-48 | the index found is the first consecutive pair enclosing the time; when none is found, no pair encloses it |
| Gradients.Bracket | GradientEditor/Assets/Scripts/CustomGradient.cs:33-48 | the keys blended are the first consecutive pair that encloses the time, or the first and the last key when no pair encloses it |
| Gradients.BracketEnclosesInRange | GradientEditor/Assets/Scripts/CustomGradient.cs:33-48 | whenever the time lies between the first and the last key's times, sorted or not, the keys blended enclose it |
| Gradients.EvaluateKeys | GradientEditor/Assets/Scripts/CustomGradient.cs:26-55 | the gradient is white for a null or empty list; otherwise each channel lies between the channels of the two keys blended |
| Gradients.EvaluateSingleKey | GradientEditor/Assets/Scripts/CustomGradient.cs:33-54 | with one key the gradient is that key's colour at every time |
| Gradients.EvaluateBeforeFirst | GradientEditor/Assets/Scripts/CustomGradient.cs:33-54 | on a sorted list, any time at or before the first key gives the first key's colour |
| Gradients.EvaluateAfterLast | GradientEditor/Assets/Scripts/CustomGradient.cs:33-54 | on a sorted list, a time after the last key gives the last colour, or the first colour when all keys share one time |
| Gradients.EvaluateAtKeyTime | GradientEditor/Assets/Scripts/CustomGradient.cs:36-54 | on a sorted list, evaluating at the time of the first key at that time gives exactly that key's colour |
| Gradients.InsertionPoint | GradientEditor/Assets/Scripts/CustomGradient.cs:67-76 | the insertion index is after every key scanned with time <= the new time and at the first key with a greater time, or at the end |
| Gradients.InsertKey | GradientEditor/Assets/Scripts/CustomGradient.cs:67-76 | insertion grows the list by one and puts the new key at the insertion index; removing it gives back the old list; the multiset gains exactly the new key |
| Gradients.InsertKeySorted | GradientEditor/Assets/Scripts/CustomGradient.cs:67-76 | a list sorted by time stays sorted after insertion |
| Gradients.InsertionPointStable | GradientEditor/Assets/Scripts/CustomGradient.cs:67-76 | on a sorted list the new key lands after exactly the keys whose time is <= its own, so equal times keep insertion order |
| Gradients.SampleTime | GradientEditor/Assets/Scripts/CustomGradient.cs:111 | every sample time lies in [0,1]; the first pixel samples 0 and the last samples 1 |
| Gradients.CustomGradient.constructor | GradientEditor/Assets/Scripts/CustomGradient.cs:8 | a new gradient holds an empty, non-null key list |
| Gradients.CustomGradient.NumberOfKeys | GradientEditor/Assets/Scripts/CustomGradient.cs:79-87 | the count is -1 exactly when the list is null, and otherwise the list's length |
| Gradients.CustomGradient.GetKey | GradientEditor/Assets/Scripts/CustomGradient.cs:89-97 | an index in [0, NumberOfKeys) gives the stored key; a null list, with any index, or an index at or past the end gives the default key |
| Gradients.CustomGradient.Evaluate | GradientEditor/Assets/Scripts/CustomGradient.cs:26-55 | the scan loop returns white for a null or empty list, and otherwise the blend of the first enclosing pair, or of the first and last keys |
| Gradients.CustomGradient.AddKey | GradientEditor/Assets/Scripts/CustomGradient.cs:57-77 | a null list is left unchanged; otherwise the list becomes the old list with the key inserted at the insertion index, the count grows by one and sortedness is preserved |
| Gradients.CustomGradient.GetTexture | GradientEditor/Assets/Scripts/CustomGradient.cs:99-117 | width 1 gives null; otherwise a fresh array of `width` colours whose pixel i is the gradient at i/(width-1), so pixel 0 is the gradient at 0 and the last pixel is the gradient at 1 |

## Left out

- Gradients.CustomGradient.GetTexture: it models only the `colours` array. Creating the `Texture2D`, `SetPixels` and `Apply` are engine resource management. A negative width is a precondition, because allocating the array throws. A width of 0 gives an empty array; whatever the engine does when creating a zero-width texture is not modelled.
- Gradients.CustomGradient.GetKey: a negative index on a non-null list is a precondition, because there the list indexer throws. On a null list any index gives the default key.
- Floating point: times and channels are reals. The rounding of `(float) i / (width - 1)` and of the blend arithmetic is not modelled.
- `Debug.LogError` in `AddKey` on a null list is a no-op in the model.
- Serialization attributes belong to the engine and have no counterpart here.
- The editor window (`GradientEditor.cs`) and the inspector drawer (`GradientDrawer.cs`) are UI code and are not part of this model. The editor calls members that `CustomGradient.cs` does not define: an `AddKey` that returns an index, `UpdateKeyColour`, `UpdateKeyTime`, `RemoveKey`, `blendMode` and `shouldRandomizeColour`. They are not modelled, because no source for them exists.
