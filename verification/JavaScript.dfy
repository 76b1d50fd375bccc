/** Small parts of JavaScript that several services share. */
module JavaScript {
  import opened Wrappers

  // `undefined`, `null` and the empty string count as missing.
  predicate Truthy(x: Option<string>) {
    x.Some? && x.value != ""
  }

  // White space and line terminators, as `trim` and `parseInt` skip them.
  predicate IsBlank(c: char) {
    9 <= c as int <= 13 || c as int in {32, 0xA0, 0x1680, 0x2028, 0x2029, 0x202F, 0x205F, 0x3000, 0xFEFF}
    || 0x2000 <= c as int <= 0x200A
  }
}
