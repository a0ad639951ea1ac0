/** The Huffman code of RFC 7541, Appendix B, and the proof that it is a complete prefix code.

    The table gives each codeword as a number and its length in bits. The proof lists the
    symbols in canonical order (by length, then by value): every codeword is then the successor
    of the one before, so the 257 codewords, seen as intervals of 30-bit numbers, tile
    [0, 2^30) without gap or overlap.
  */
module HuffmanTable {
  import opened Wire
  import opened Bits
  import opened PrefixCode
  import opened TilingCode
  import opened HpackString
  import opened HuffmanLengths
  import HuffmanTree

  const LONGEST: nat := 30

  datatype Entry = Entry(value: nat, length: nat)

  function Codewords0(i: nat): Entry {
    match i
    case 0 => Entry(0x1ff8, 13)
    case 1 => Entry(0x7fffd8, 23)
    case 2 => Entry(0xfffffe2, 28)
    case 3 => Entry(0xfffffe3, 28)
    case 4 => Entry(0xfffffe4, 28)
    case 5 => Entry(0xfffffe5, 28)
    case 6 => Entry(0xfffffe6, 28)
    case 7 => Entry(0xfffffe7, 28)
    case 8 => Entry(0xfffffe8, 28)
    case 9 => Entry(0xffffea, 24)
    case 10 => Entry(0x3ffffffc, 30)
    case 11 => Entry(0xfffffe9, 28)
    case 12 => Entry(0xfffffea, 28)
    case 13 => Entry(0x3ffffffd, 30)
    case 14 => Entry(0xfffffeb, 28)
    case 15 => Entry(0xfffffec, 28)
    case _ => Entry(0, 0)
  }

  function Codewords1(i: nat): Entry {
    match i
    case 16 => Entry(0xfffffed, 28)
    case 17 => Entry(0xfffffee, 28)
    case 18 => Entry(0xfffffef, 28)
    case 19 => Entry(0xffffff0, 28)
    case 20 => Entry(0xffffff1, 28)
    case 21 => Entry(0xffffff2, 28)
    case 22 => Entry(0x3ffffffe, 30)
    case 23 => Entry(0xffffff3, 28)
    case 24 => Entry(0xffffff4, 28)
    case 25 => Entry(0xffffff5, 28)
    case 26 => Entry(0xffffff6, 28)
    case 27 => Entry(0xffffff7, 28)
    case 28 => Entry(0xffffff8, 28)
    case 29 => Entry(0xffffff9, 28)
    case 30 => Entry(0xffffffa, 28)
    case 31 => Entry(0xffffffb, 28)
    case _ => Entry(0, 0)
  }

  function Codewords2(i: nat): Entry {
    match i
    case 32 => Entry(0x14, 6)
    case 33 => Entry(0x3f8, 10)
    case 34 => Entry(0x3f9, 10)
    case 35 => Entry(0xffa, 12)
    case 36 => Entry(0x1ff9, 13)
    case 37 => Entry(0x15, 6)
    case 38 => Entry(0xf8, 8)
    case 39 => Entry(0x7fa, 11)
    case 40 => Entry(0x3fa, 10)
    case 41 => Entry(0x3fb, 10)
    case 42 => Entry(0xf9, 8)
    case 43 => Entry(0x7fb, 11)
    case 44 => Entry(0xfa, 8)
    case 45 => Entry(0x16, 6)
    case 46 => Entry(0x17, 6)
    case 47 => Entry(0x18, 6)
    case _ => Entry(0, 0)
  }

  function Codewords3(i: nat): Entry {
    match i
    case 48 => Entry(0x0, 5)
    case 49 => Entry(0x1, 5)
    case 50 => Entry(0x2, 5)
    case 51 => Entry(0x19, 6)
    case 52 => Entry(0x1a, 6)
    case 53 => Entry(0x1b, 6)
    case 54 => Entry(0x1c, 6)
    case 55 => Entry(0x1d, 6)
    case 56 => Entry(0x1e, 6)
    case 57 => Entry(0x1f, 6)
    case 58 => Entry(0x5c, 7)
    case 59 => Entry(0xfb, 8)
    case 60 => Entry(0x7ffc, 15)
    case 61 => Entry(0x20, 6)
    case 62 => Entry(0xffb, 12)
    case 63 => Entry(0x3fc, 10)
    case _ => Entry(0, 0)
  }

  function Codewords4(i: nat): Entry {
    match i
    case 64 => Entry(0x1ffa, 13)
    case 65 => Entry(0x21, 6)
    case 66 => Entry(0x5d, 7)
    case 67 => Entry(0x5e, 7)
    case 68 => Entry(0x5f, 7)
    case 69 => Entry(0x60, 7)
    case 70 => Entry(0x61, 7)
    case 71 => Entry(0x62, 7)
    case 72 => Entry(0x63, 7)
    case 73 => Entry(0x64, 7)
    case 74 => Entry(0x65, 7)
    case 75 => Entry(0x66, 7)
    case 76 => Entry(0x67, 7)
    case 77 => Entry(0x68, 7)
    case 78 => Entry(0x69, 7)
    case 79 => Entry(0x6a, 7)
    case _ => Entry(0, 0)
  }

  function Codewords5(i: nat): Entry {
    match i
    case 80 => Entry(0x6b, 7)
    case 81 => Entry(0x6c, 7)
    case 82 => Entry(0x6d, 7)
    case 83 => Entry(0x6e, 7)
    case 84 => Entry(0x6f, 7)
    case 85 => Entry(0x70, 7)
    case 86 => Entry(0x71, 7)
    case 87 => Entry(0x72, 7)
    case 88 => Entry(0xfc, 8)
    case 89 => Entry(0x73, 7)
    case 90 => Entry(0xfd, 8)
    case 91 => Entry(0x1ffb, 13)
    case 92 => Entry(0x7fff0, 19)
    case 93 => Entry(0x1ffc, 13)
    case 94 => Entry(0x3ffc, 14)
    case 95 => Entry(0x22, 6)
    case _ => Entry(0, 0)
  }

  function Codewords6(i: nat): Entry {
    match i
    case 96 => Entry(0x7ffd, 15)
    case 97 => Entry(0x3, 5)
    case 98 => Entry(0x23, 6)
    case 99 => Entry(0x4, 5)
    case 100 => Entry(0x24, 6)
    case 101 => Entry(0x5, 5)
    case 102 => Entry(0x25, 6)
    case 103 => Entry(0x26, 6)
    case 104 => Entry(0x27, 6)
    case 105 => Entry(0x6, 5)
    case 106 => Entry(0x74, 7)
    case 107 => Entry(0x75, 7)
    case 108 => Entry(0x28, 6)
    case 109 => Entry(0x29, 6)
    case 110 => Entry(0x2a, 6)
    case 111 => Entry(0x7, 5)
    case _ => Entry(0, 0)
  }

  function Codewords7(i: nat): Entry {
    match i
    case 112 => Entry(0x2b, 6)
    case 113 => Entry(0x76, 7)
    case 114 => Entry(0x2c, 6)
    case 115 => Entry(0x8, 5)
    case 116 => Entry(0x9, 5)
    case 117 => Entry(0x2d, 6)
    case 118 => Entry(0x77, 7)
    case 119 => Entry(0x78, 7)
    case 120 => Entry(0x79, 7)
    case 121 => Entry(0x7a, 7)
    case 122 => Entry(0x7b, 7)
    case 123 => Entry(0x7ffe, 15)
    case 124 => Entry(0x7fc, 11)
    case 125 => Entry(0x3ffd, 14)
    case 126 => Entry(0x1ffd, 13)
    case 127 => Entry(0xffffffc, 28)
    case _ => Entry(0, 0)
  }

  function Codewords8(i: nat): Entry {
    match i
    case 128 => Entry(0xfffe6, 20)
    case 129 => Entry(0x3fffd2, 22)
    case 130 => Entry(0xfffe7, 20)
    case 131 => Entry(0xfffe8, 20)
    case 132 => Entry(0x3fffd3, 22)
    case 133 => Entry(0x3fffd4, 22)
    case 134 => Entry(0x3fffd5, 22)
    case 135 => Entry(0x7fffd9, 23)
    case 136 => Entry(0x3fffd6, 22)
    case 137 => Entry(0x7fffda, 23)
    case 138 => Entry(0x7fffdb, 23)
    case 139 => Entry(0x7fffdc, 23)
    case 140 => Entry(0x7fffdd, 23)
    case 141 => Entry(0x7fffde, 23)
    case 142 => Entry(0xffffeb, 24)
    case 143 => Entry(0x7fffdf, 23)
    case _ => Entry(0, 0)
  }

  function Codewords9(i: nat): Entry {
    match i
    case 144 => Entry(0xffffec, 24)
    case 145 => Entry(0xffffed, 24)
    case 146 => Entry(0x3fffd7, 22)
    case 147 => Entry(0x7fffe0, 23)
    case 148 => Entry(0xffffee, 24)
    case 149 => Entry(0x7fffe1, 23)
    case 150 => Entry(0x7fffe2, 23)
    case 151 => Entry(0x7fffe3, 23)
    case 152 => Entry(0x7fffe4, 23)
    case 153 => Entry(0x1fffdc, 21)
    case 154 => Entry(0x3fffd8, 22)
    case 155 => Entry(0x7fffe5, 23)
    case 156 => Entry(0x3fffd9, 22)
    case 157 => Entry(0x7fffe6, 23)
    case 158 => Entry(0x7fffe7, 23)
    case 159 => Entry(0xffffef, 24)
    case _ => Entry(0, 0)
  }

  function Codewords10(i: nat): Entry {
    match i
    case 160 => Entry(0x3fffda, 22)
    case 161 => Entry(0x1fffdd, 21)
    case 162 => Entry(0xfffe9, 20)
    case 163 => Entry(0x3fffdb, 22)
    case 164 => Entry(0x3fffdc, 22)
    case 165 => Entry(0x7fffe8, 23)
    case 166 => Entry(0x7fffe9, 23)
    case 167 => Entry(0x1fffde, 21)
    case 168 => Entry(0x7fffea, 23)
    case 169 => Entry(0x3fffdd, 22)
    case 170 => Entry(0x3fffde, 22)
    case 171 => Entry(0xfffff0, 24)
    case 172 => Entry(0x1fffdf, 21)
    case 173 => Entry(0x3fffdf, 22)
    case 174 => Entry(0x7fffeb, 23)
    case 175 => Entry(0x7fffec, 23)
    case _ => Entry(0, 0)
  }

  function Codewords11(i: nat): Entry {
    match i
    case 176 => Entry(0x1fffe0, 21)
    case 177 => Entry(0x1fffe1, 21)
    case 178 => Entry(0x3fffe0, 22)
    case 179 => Entry(0x1fffe2, 21)
    case 180 => Entry(0x7fffed, 23)
    case 181 => Entry(0x3fffe1, 22)
    case 182 => Entry(0x7fffee, 23)
    case 183 => Entry(0x7fffef, 23)
    case 184 => Entry(0xfffea, 20)
    case 185 => Entry(0x3fffe2, 22)
    case 186 => Entry(0x3fffe3, 22)
    case 187 => Entry(0x3fffe4, 22)
    case 188 => Entry(0x7ffff0, 23)
    case 189 => Entry(0x3fffe5, 22)
    case 190 => Entry(0x3fffe6, 22)
    case 191 => Entry(0x7ffff1, 23)
    case _ => Entry(0, 0)
  }

  function Codewords12(i: nat): Entry {
    match i
    case 192 => Entry(0x3ffffe0, 26)
    case 193 => Entry(0x3ffffe1, 26)
    case 194 => Entry(0xfffeb, 20)
    case 195 => Entry(0x7fff1, 19)
    case 196 => Entry(0x3fffe7, 22)
    case 197 => Entry(0x7ffff2, 23)
    case 198 => Entry(0x3fffe8, 22)
    case 199 => Entry(0x1ffffec, 25)
    case 200 => Entry(0x3ffffe2, 26)
    case 201 => Entry(0x3ffffe3, 26)
    case 202 => Entry(0x3ffffe4, 26)
    case 203 => Entry(0x7ffffde, 27)
    case 204 => Entry(0x7ffffdf, 27)
    case 205 => Entry(0x3ffffe5, 26)
    case 206 => Entry(0xfffff1, 24)
    case 207 => Entry(0x1ffffed, 25)
    case _ => Entry(0, 0)
  }

  function Codewords13(i: nat): Entry {
    match i
    case 208 => Entry(0x7fff2, 19)
    case 209 => Entry(0x1fffe3, 21)
    case 210 => Entry(0x3ffffe6, 26)
    case 211 => Entry(0x7ffffe0, 27)
    case 212 => Entry(0x7ffffe1, 27)
    case 213 => Entry(0x3ffffe7, 26)
    case 214 => Entry(0x7ffffe2, 27)
    case 215 => Entry(0xfffff2, 24)
    case 216 => Entry(0x1fffe4, 21)
    case 217 => Entry(0x1fffe5, 21)
    case 218 => Entry(0x3ffffe8, 26)
    case 219 => Entry(0x3ffffe9, 26)
    case 220 => Entry(0xffffffd, 28)
    case 221 => Entry(0x7ffffe3, 27)
    case 222 => Entry(0x7ffffe4, 27)
    case 223 => Entry(0x7ffffe5, 27)
    case _ => Entry(0, 0)
  }

  function Codewords14(i: nat): Entry {
    match i
    case 224 => Entry(0xfffec, 20)
    case 225 => Entry(0xfffff3, 24)
    case 226 => Entry(0xfffed, 20)
    case 227 => Entry(0x1fffe6, 21)
    case 228 => Entry(0x3fffe9, 22)
    case 229 => Entry(0x1fffe7, 21)
    case 230 => Entry(0x1fffe8, 21)
    case 231 => Entry(0x7ffff3, 23)
    case 232 => Entry(0x3fffea, 22)
    case 233 => Entry(0x3fffeb, 22)
    case 234 => Entry(0x1ffffee, 25)
    case 235 => Entry(0x1ffffef, 25)
    case 236 => Entry(0xfffff4, 24)
    case 237 => Entry(0xfffff5, 24)
    case 238 => Entry(0x3ffffea, 26)
    case 239 => Entry(0x7ffff4, 23)
    case _ => Entry(0, 0)
  }

  function Codewords15(i: nat): Entry {
    match i
    case 240 => Entry(0x3ffffeb, 26)
    case 241 => Entry(0x7ffffe6, 27)
    case 242 => Entry(0x3ffffec, 26)
    case 243 => Entry(0x3ffffed, 26)
    case 244 => Entry(0x7ffffe7, 27)
    case 245 => Entry(0x7ffffe8, 27)
    case 246 => Entry(0x7ffffe9, 27)
    case 247 => Entry(0x7ffffea, 27)
    case 248 => Entry(0x7ffffeb, 27)
    case 249 => Entry(0xffffffe, 28)
    case 250 => Entry(0x7ffffec, 27)
    case 251 => Entry(0x7ffffed, 27)
    case 252 => Entry(0x7ffffee, 27)
    case 253 => Entry(0x7ffffef, 27)
    case 254 => Entry(0x7fffff0, 27)
    case 255 => Entry(0x3ffffee, 26)
    case _ => Entry(0, 0)
  }

  function Codewords16(i: nat): Entry {
    match i
    case 256 => Entry(0x3fffffff, 30)
    case _ => Entry(0, 0)
  }

  function CodewordOf(i: nat): Entry {
    match i / 16
    case 0 => Codewords0(i)
    case 1 => Codewords1(i)
    case 2 => Codewords2(i)
    case 3 => Codewords3(i)
    case 4 => Codewords4(i)
    case 5 => Codewords5(i)
    case 6 => Codewords6(i)
    case 7 => Codewords7(i)
    case 8 => Codewords8(i)
    case 9 => Codewords9(i)
    case 10 => Codewords10(i)
    case 11 => Codewords11(i)
    case 12 => Codewords12(i)
    case 13 => Codewords13(i)
    case 14 => Codewords14(i)
    case 15 => Codewords15(i)
    case 16 => Codewords16(i)
    case _ => Entry(0, 0)
  }

  function HuffmanCode(): (code: Table)
  {
    seq(SYMBOLS, i requires 0 <= i < SYMBOLS => BitsOf(CodewordOf(i).value, CodewordOf(i).length))
  }

  // The symbols in canonical order.

  function Ordered0(i: nat): nat {
    match i
    case 0 => 48
    case 1 => 49
    case 2 => 50
    case 3 => 97
    case 4 => 99
    case 5 => 101
    case 6 => 105
    case 7 => 111
    case 8 => 115
    case 9 => 116
    case 10 => 32
    case 11 => 37
    case 12 => 45
    case 13 => 46
    case 14 => 47
    case 15 => 51
    case _ => 0
  }

  function Ordered1(i: nat): nat {
    match i
    case 16 => 52
    case 17 => 53
    case 18 => 54
    case 19 => 55
    case 20 => 56
    case 21 => 57
    case 22 => 61
    case 23 => 65
    case 24 => 95
    case 25 => 98
    case 26 => 100
    case 27 => 102
    case 28 => 103
    case 29 => 104
    case 30 => 108
    case 31 => 109
    case _ => 0
  }

  function Ordered2(i: nat): nat {
    match i
    case 32 => 110
    case 33 => 112
    case 34 => 114
    case 35 => 117
    case 36 => 58
    case 37 => 66
    case 38 => 67
    case 39 => 68
    case 40 => 69
    case 41 => 70
    case 42 => 71
    case 43 => 72
    case 44 => 73
    case 45 => 74
    case 46 => 75
    case 47 => 76
    case _ => 0
  }

  function Ordered3(i: nat): nat {
    match i
    case 48 => 77
    case 49 => 78
    case 50 => 79
    case 51 => 80
    case 52 => 81
    case 53 => 82
    case 54 => 83
    case 55 => 84
    case 56 => 85
    case 57 => 86
    case 58 => 87
    case 59 => 89
    case 60 => 106
    case 61 => 107
    case 62 => 113
    case 63 => 118
    case _ => 0
  }

  function Ordered4(i: nat): nat {
    match i
    case 64 => 119
    case 65 => 120
    case 66 => 121
    case 67 => 122
    case 68 => 38
    case 69 => 42
    case 70 => 44
    case 71 => 59
    case 72 => 88
    case 73 => 90
    case 74 => 33
    case 75 => 34
    case 76 => 40
    case 77 => 41
    case 78 => 63
    case 79 => 39
    case _ => 0
  }

  function Ordered5(i: nat): nat {
    match i
    case 80 => 43
    case 81 => 124
    case 82 => 35
    case 83 => 62
    case 84 => 0
    case 85 => 36
    case 86 => 64
    case 87 => 91
    case 88 => 93
    case 89 => 126
    case 90 => 94
    case 91 => 125
    case 92 => 60
    case 93 => 96
    case 94 => 123
    case 95 => 92
    case _ => 0
  }

  function Ordered6(i: nat): nat {
    match i
    case 96 => 195
    case 97 => 208
    case 98 => 128
    case 99 => 130
    case 100 => 131
    case 101 => 162
    case 102 => 184
    case 103 => 194
    case 104 => 224
    case 105 => 226
    case 106 => 153
    case 107 => 161
    case 108 => 167
    case 109 => 172
    case 110 => 176
    case 111 => 177
    case _ => 0
  }

  function Ordered7(i: nat): nat {
    match i
    case 112 => 179
    case 113 => 209
    case 114 => 216
    case 115 => 217
    case 116 => 227
    case 117 => 229
    case 118 => 230
    case 119 => 129
    case 120 => 132
    case 121 => 133
    case 122 => 134
    case 123 => 136
    case 124 => 146
    case 125 => 154
    case 126 => 156
    case 127 => 160
    case _ => 0
  }

  function Ordered8(i: nat): nat {
    match i
    case 128 => 163
    case 129 => 164
    case 130 => 169
    case 131 => 170
    case 132 => 173
    case 133 => 178
    case 134 => 181
    case 135 => 185
    case 136 => 186
    case 137 => 187
    case 138 => 189
    case 139 => 190
    case 140 => 196
    case 141 => 198
    case 142 => 228
    case 143 => 232
    case _ => 0
  }

  function Ordered9(i: nat): nat {
    match i
    case 144 => 233
    case 145 => 1
    case 146 => 135
    case 147 => 137
    case 148 => 138
    case 149 => 139
    case 150 => 140
    case 151 => 141
    case 152 => 143
    case 153 => 147
    case 154 => 149
    case 155 => 150
    case 156 => 151
    case 157 => 152
    case 158 => 155
    case 159 => 157
    case _ => 0
  }

  function Ordered10(i: nat): nat {
    match i
    case 160 => 158
    case 161 => 165
    case 162 => 166
    case 163 => 168
    case 164 => 174
    case 165 => 175
    case 166 => 180
    case 167 => 182
    case 168 => 183
    case 169 => 188
    case 170 => 191
    case 171 => 197
    case 172 => 231
    case 173 => 239
    case 174 => 9
    case 175 => 142
    case _ => 0
  }

  function Ordered11(i: nat): nat {
    match i
    case 176 => 144
    case 177 => 145
    case 178 => 148
    case 179 => 159
    case 180 => 171
    case 181 => 206
    case 182 => 215
    case 183 => 225
    case 184 => 236
    case 185 => 237
    case 186 => 199
    case 187 => 207
    case 188 => 234
    case 189 => 235
    case 190 => 192
    case 191 => 193
    case _ => 0
  }

  function Ordered12(i: nat): nat {
    match i
    case 192 => 200
    case 193 => 201
    case 194 => 202
    case 195 => 205
    case 196 => 210
    case 197 => 213
    case 198 => 218
    case 199 => 219
    case 200 => 238
    case 201 => 240
    case 202 => 242
    case 203 => 243
    case 204 => 255
    case 205 => 203
    case 206 => 204
    case 207 => 211
    case _ => 0
  }

  function Ordered13(i: nat): nat {
    match i
    case 208 => 212
    case 209 => 214
    case 210 => 221
    case 211 => 222
    case 212 => 223
    case 213 => 241
    case 214 => 244
    case 215 => 245
    case 216 => 246
    case 217 => 247
    case 218 => 248
    case 219 => 250
    case 220 => 251
    case 221 => 252
    case 222 => 253
    case 223 => 254
    case _ => 0
  }

  function Ordered14(i: nat): nat {
    match i
    case 224 => 2
    case 225 => 3
    case 226 => 4
    case 227 => 5
    case 228 => 6
    case 229 => 7
    case 230 => 8
    case 231 => 11
    case 232 => 12
    case 233 => 14
    case 234 => 15
    case 235 => 16
    case 236 => 17
    case 237 => 18
    case 238 => 19
    case 239 => 20
    case _ => 0
  }

  function Ordered15(i: nat): nat {
    match i
    case 240 => 21
    case 241 => 23
    case 242 => 24
    case 243 => 25
    case 244 => 26
    case 245 => 27
    case 246 => 28
    case 247 => 29
    case 248 => 30
    case 249 => 31
    case 250 => 127
    case 251 => 220
    case 252 => 249
    case 253 => 10
    case 254 => 13
    case 255 => 22
    case _ => 0
  }

  function Ordered16(i: nat): nat {
    match i
    case 256 => 256
    case _ => 0
  }

  function Ordered(i: nat): nat {
    match i / 16
    case 0 => Ordered0(i)
    case 1 => Ordered1(i)
    case 2 => Ordered2(i)
    case 3 => Ordered3(i)
    case 4 => Ordered4(i)
    case 5 => Ordered5(i)
    case 6 => Ordered6(i)
    case 7 => Ordered7(i)
    case 8 => Ordered8(i)
    case 9 => Ordered9(i)
    case 10 => Ordered10(i)
    case 11 => Ordered11(i)
    case 12 => Ordered12(i)
    case 13 => Ordered13(i)
    case 14 => Ordered14(i)
    case 15 => Ordered15(i)
    case 16 => Ordered16(i)
    case _ => 0
  }

  /** The codeword at position `i` of the canonical order: lengths grow, values count up within a length. */
  function Canonical(i: nat): Entry {
    if i < 10 then Entry(i, 5)
    else if i < 36 then Entry(i + 0xa, 6)
    else if i < 68 then Entry(i + 0x38, 7)
    else if i < 74 then Entry(i + 0xb4, 8)
    else if i < 79 then Entry(i + 0x3ae, 10)
    else if i < 82 then Entry(i + 0x7ab, 11)
    else if i < 84 then Entry(i + 0xfa8, 12)
    else if i < 90 then Entry(i + 0x1fa4, 13)
    else if i < 92 then Entry(i + 0x3fa2, 14)
    else if i < 95 then Entry(i + 0x7fa0, 15)
    else if i < 98 then Entry(i + 0x7ff91, 19)
    else if i < 106 then Entry(i + 0xfff84, 20)
    else if i < 119 then Entry(i + 0x1fff72, 21)
    else if i < 145 then Entry(i + 0x3fff5b, 22)
    else if i < 174 then Entry(i + 0x7fff47, 23)
    else if i < 186 then Entry(i + 0xffff3c, 24)
    else if i < 190 then Entry(i + 0x1ffff32, 25)
    else if i < 205 then Entry(i + 0x3ffff22, 26)
    else if i < 224 then Entry(i + 0x7ffff11, 27)
    else if i < 253 then Entry(i + 0xfffff02, 28)
    else Entry(i + 0x3ffffeff, 30)
  }

  /** The table has the canonical codeword at a position, the length is the announced one, and symbols ascend
      within a length. */
  predicate IsCanonical(i: nat) {
    && Ordered(i) < SYMBOLS
    && CodewordOf(Ordered(i)) == Canonical(i)
    && LengthOf(Ordered(i)) == Canonical(i).length
    && (Canonical(i + 1).length == Canonical(i).length && i + 1 < SYMBOLS ==> Ordered(i) < Ordered(i + 1))
  }

  // Whatever holds of canonical positions holds of every position below 257. The property is a
  // parameter so that the pieces can be put together without looking anything up again.

  ghost predicate HoldsOfCanonical(p: nat -> bool) {
    forall i | IsCanonical(i) :: p(i)
  }

  lemma Canonical0To11(p: nat -> bool)
    requires HoldsOfCanonical(p)
    ensures p(0) && p(1) && p(2) && p(3) && p(4) && p(5)
    ensures p(6) && p(7) && p(8) && p(9) && p(10) && p(11)
  {}

  lemma Canonical12To23(p: nat -> bool)
    requires HoldsOfCanonical(p)
    ensures p(12) && p(13) && p(14) && p(15) && p(16) && p(17)
    ensures p(18) && p(19) && p(20) && p(21) && p(22) && p(23)
  {}

  lemma Canonical24To35(p: nat -> bool)
    requires HoldsOfCanonical(p)
    ensures p(24) && p(25) && p(26) && p(27) && p(28) && p(29)
    ensures p(30) && p(31) && p(32) && p(33) && p(34) && p(35)
  {}

  lemma Canonical36To47(p: nat -> bool)
    requires HoldsOfCanonical(p)
    ensures p(36) && p(37) && p(38) && p(39) && p(40) && p(41)
    ensures p(42) && p(43) && p(44) && p(45) && p(46) && p(47)
  {}

  lemma Canonical48To59(p: nat -> bool)
    requires HoldsOfCanonical(p)
    ensures p(48) && p(49) && p(50) && p(51) && p(52) && p(53)
    ensures p(54) && p(55) && p(56) && p(57) && p(58) && p(59)
  {}

  lemma Canonical60To71(p: nat -> bool)
    requires HoldsOfCanonical(p)
    ensures p(60) && p(61) && p(62) && p(63) && p(64) && p(65)
    ensures p(66) && p(67) && p(68) && p(69) && p(70) && p(71)
  {}

  lemma Canonical72To83(p: nat -> bool)
    requires HoldsOfCanonical(p)
    ensures p(72) && p(73) && p(74) && p(75) && p(76) && p(77)
    ensures p(78) && p(79) && p(80) && p(81) && p(82) && p(83)
  {}

  lemma Canonical84To95(p: nat -> bool)
    requires HoldsOfCanonical(p)
    ensures p(84) && p(85) && p(86) && p(87) && p(88) && p(89)
    ensures p(90) && p(91) && p(92) && p(93) && p(94) && p(95)
  {}

  lemma Canonical96To107(p: nat -> bool)
    requires HoldsOfCanonical(p)
    ensures p(96) && p(97) && p(98) && p(99) && p(100) && p(101)
    ensures p(102) && p(103) && p(104) && p(105) && p(106) && p(107)
  {}

  lemma Canonical108To119(p: nat -> bool)
    requires HoldsOfCanonical(p)
    ensures p(108) && p(109) && p(110) && p(111) && p(112) && p(113)
    ensures p(114) && p(115) && p(116) && p(117) && p(118) && p(119)
  {}

  lemma Canonical120To131(p: nat -> bool)
    requires HoldsOfCanonical(p)
    ensures p(120) && p(121) && p(122) && p(123) && p(124) && p(125)
    ensures p(126) && p(127) && p(128) && p(129) && p(130) && p(131)
  {}

  lemma Canonical132To143(p: nat -> bool)
    requires HoldsOfCanonical(p)
    ensures p(132) && p(133) && p(134) && p(135) && p(136) && p(137)
    ensures p(138) && p(139) && p(140) && p(141) && p(142) && p(143)
  {}

  lemma Canonical144To155(p: nat -> bool)
    requires HoldsOfCanonical(p)
    ensures p(144) && p(145) && p(146) && p(147) && p(148) && p(149)
    ensures p(150) && p(151) && p(152) && p(153) && p(154) && p(155)
  {}

  lemma Canonical156To167(p: nat -> bool)
    requires HoldsOfCanonical(p)
    ensures p(156) && p(157) && p(158) && p(159) && p(160) && p(161)
    ensures p(162) && p(163) && p(164) && p(165) && p(166) && p(167)
  {}

  lemma Canonical168To179(p: nat -> bool)
    requires HoldsOfCanonical(p)
    ensures p(168) && p(169) && p(170) && p(171) && p(172) && p(173)
    ensures p(174) && p(175) && p(176) && p(177) && p(178) && p(179)
  {}

  lemma Canonical180To191(p: nat -> bool)
    requires HoldsOfCanonical(p)
    ensures p(180) && p(181) && p(182) && p(183) && p(184) && p(185)
    ensures p(186) && p(187) && p(188) && p(189) && p(190) && p(191)
  {}

  lemma Canonical192To203(p: nat -> bool)
    requires HoldsOfCanonical(p)
    ensures p(192) && p(193) && p(194) && p(195) && p(196) && p(197)
    ensures p(198) && p(199) && p(200) && p(201) && p(202) && p(203)
  {}

  lemma Canonical204To215(p: nat -> bool)
    requires HoldsOfCanonical(p)
    ensures p(204) && p(205) && p(206) && p(207) && p(208) && p(209)
    ensures p(210) && p(211) && p(212) && p(213) && p(214) && p(215)
  {}

  lemma Canonical216To227(p: nat -> bool)
    requires HoldsOfCanonical(p)
    ensures p(216) && p(217) && p(218) && p(219) && p(220) && p(221)
    ensures p(222) && p(223) && p(224) && p(225) && p(226) && p(227)
  {}

  lemma Canonical228To239(p: nat -> bool)
    requires HoldsOfCanonical(p)
    ensures p(228) && p(229) && p(230) && p(231) && p(232) && p(233)
    ensures p(234) && p(235) && p(236) && p(237) && p(238) && p(239)
  {}

  lemma Canonical240To251(p: nat -> bool)
    requires HoldsOfCanonical(p)
    ensures p(240) && p(241) && p(242) && p(243) && p(244) && p(245)
    ensures p(246) && p(247) && p(248) && p(249) && p(250) && p(251)
  {}

  lemma Canonical252To256(p: nat -> bool)
    requires HoldsOfCanonical(p)
    ensures p(252) && p(253) && p(254) && p(255) && p(256)
  {}

  lemma AllOfTwelve(p: nat -> bool, a: nat, i: nat)
    requires a <= i < a + 12
    requires p(a + 0) && p(a + 1) && p(a + 2) && p(a + 3) && p(a + 4) && p(a + 5)
    requires p(a + 6) && p(a + 7) && p(a + 8) && p(a + 9) && p(a + 10) && p(a + 11)
    ensures p(i)
  {}

  lemma LowerHalf(p: nat -> bool, i: nat)
    requires HoldsOfCanonical(p) && i < 132
    ensures p(i)
  {
    match i / 12
    case 0 => Canonical0To11(p); AllOfTwelve(p, 0, i);
    case 1 => Canonical12To23(p); AllOfTwelve(p, 12, i);
    case 2 => Canonical24To35(p); AllOfTwelve(p, 24, i);
    case 3 => Canonical36To47(p); AllOfTwelve(p, 36, i);
    case 4 => Canonical48To59(p); AllOfTwelve(p, 48, i);
    case 5 => Canonical60To71(p); AllOfTwelve(p, 60, i);
    case 6 => Canonical72To83(p); AllOfTwelve(p, 72, i);
    case 7 => Canonical84To95(p); AllOfTwelve(p, 84, i);
    case 8 => Canonical96To107(p); AllOfTwelve(p, 96, i);
    case 9 => Canonical108To119(p); AllOfTwelve(p, 108, i);
    case _ => Canonical120To131(p); AllOfTwelve(p, 120, i);
  }

  lemma UpperHalf(p: nat -> bool, i: nat)
    requires HoldsOfCanonical(p) && 132 <= i < SYMBOLS
    ensures p(i)
  {
    match i / 12
    case 11 => Canonical132To143(p); AllOfTwelve(p, 132, i);
    case 12 => Canonical144To155(p); AllOfTwelve(p, 144, i);
    case 13 => Canonical156To167(p); AllOfTwelve(p, 156, i);
    case 14 => Canonical168To179(p); AllOfTwelve(p, 168, i);
    case 15 => Canonical180To191(p); AllOfTwelve(p, 180, i);
    case 16 => Canonical192To203(p); AllOfTwelve(p, 192, i);
    case 17 => Canonical204To215(p); AllOfTwelve(p, 204, i);
    case 18 => Canonical216To227(p); AllOfTwelve(p, 216, i);
    case 19 => Canonical228To239(p); AllOfTwelve(p, 228, i);
    case 20 => Canonical240To251(p); AllOfTwelve(p, 240, i);
    case _ => Canonical252To256(p);
  }

  lemma TableIsCanonical(i: nat)
    requires i < SYMBOLS
    ensures IsCanonical(i)
  {
    if i < 132 {
      LowerHalf(IsCanonical, i);
    } else {
      UpperHalf(IsCanonical, i);
    }
  }

  lemma PowersOfTwo()
    ensures Pow2(0) == 1 && Pow2(1) == 2 && Pow2(2) == 4 && Pow2(3) == 8 && Pow2(4) == 0x10
    ensures Pow2(5) == 0x20 && Pow2(6) == 0x40 && Pow2(7) == 0x80 && Pow2(8) == 0x100 && Pow2(9) == 0x200
    ensures Pow2(10) == 0x400 && Pow2(11) == 0x800 && Pow2(12) == 0x1000 && Pow2(13) == 0x2000
    ensures Pow2(14) == 0x4000 && Pow2(15) == 0x8000 && Pow2(16) == 0x10000 && Pow2(17) == 0x20000
    ensures Pow2(18) == 0x40000 && Pow2(19) == 0x80000 && Pow2(20) == 0x100000 && Pow2(21) == 0x200000
    ensures Pow2(22) == 0x400000 && Pow2(23) == 0x800000 && Pow2(24) == 0x1000000 && Pow2(25) == 0x2000000
    ensures Pow2(26) == 0x4000000 && Pow2(27) == 0x8000000 && Pow2(28) == 0x10000000
    ensures Pow2(30) == 0x40000000
  {}

  /** Each canonical codeword's interval starts where the one before ends; the last one ends at 2^30. */
  lemma CanonicalSteps(i: nat)
    requires i < SYMBOLS
    ensures var e, f := Canonical(i), Canonical(i + 1);
            && 0 < e.length <= LONGEST
            && e.value < Pow2(e.length)
            && (i + 1 < SYMBOLS ==>
                  && f.length <= LONGEST
                  && e.value * Pow2(LONGEST - e.length) + Pow2(LONGEST - e.length) == f.value * Pow2(LONGEST - f.length))
            && (i + 1 == SYMBOLS ==>
                  e.value * Pow2(LONGEST - e.length) + Pow2(LONGEST - e.length) == Pow2(LONGEST))
  {
    PowersOfTwo();
  }

  ghost function CanonicalOrder(): (order: seq<nat>)
    ensures |order| == SYMBOLS
    ensures forall i | 0 <= i < SYMBOLS :: order[i] == Ordered(i)
  {
    seq(SYMBOLS, i requires 0 <= i < SYMBOLS => Ordered(i))
  }

  lemma CodewordAt(i: nat)
    requires i < SYMBOLS
    ensures CanonicalOrder()[i] < SYMBOLS
    ensures HuffmanCode()[CanonicalOrder()[i]] == BitsOf(Canonical(i).value, Canonical(i).length)
    ensures var e := Canonical(i);
            && 0 < e.length <= LONGEST
            && ValueOf(BitsOf(e.value, e.length)) == e.value
  {
    TableIsCanonical(i);
    CanonicalSteps(i);
    ValueOfBitsOf(Canonical(i).value, Canonical(i).length);
  }

  /** Adjacent codewords of the canonical order have adjacent intervals. */
  lemma NeighboursTouch(i: nat)
    requires i + 1 < SYMBOLS
    ensures var c, d := BitsOf(Canonical(i).value, Canonical(i).length), BitsOf(Canonical(i + 1).value, Canonical(i + 1).length);
            |c| <= LONGEST && |d| <= LONGEST && High(c, LONGEST) == Low(d, LONGEST)
  {
    CanonicalSteps(i);
    CanonicalSteps(i + 1);
    ValueOfBitsOf(Canonical(i).value, Canonical(i).length);
    ValueOfBitsOf(Canonical(i + 1).value, Canonical(i + 1).length);
  }

  lemma OrderStartsAndEnds()
    ensures var c, d := BitsOf(Canonical(0).value, Canonical(0).length), BitsOf(Canonical(256).value, Canonical(256).length);
            && |c| <= LONGEST && |d| <= LONGEST
            && Low(c, LONGEST) == 0
            && High(d, LONGEST) == Pow2(LONGEST)
  {
    CanonicalSteps(0);
    CanonicalSteps(256);
    ValueOfBitsOf(Canonical(0).value, Canonical(0).length);
    ValueOfBitsOf(Canonical(256).value, Canonical(256).length);
  }

  lemma CanonicalOrderTiles()
    ensures Tiles(HuffmanCode(), CanonicalOrder(), LONGEST)
  {
    var code, order := HuffmanCode(), CanonicalOrder();
    forall i | 0 <= i < SYMBOLS
      ensures order[i] < |code| && 0 < |code[order[i]]| <= LONGEST
    {
      CodewordAt(i);
    }
    forall i, j | 0 <= i && j == i + 1 < SYMBOLS
      ensures Low(code[order[j]], LONGEST) == High(code[order[i]], LONGEST)
    {
      CodewordAt(i);
      CodewordAt(j);
      NeighboursTouch(i);
    }
    CodewordAt(0);
    CodewordAt(256);
    OrderStartsAndEnds();
  }

  /** The table is a complete prefix code with no empty codeword. */
  lemma HuffmanCodeIsGood()
    ensures GoodCode(HuffmanCode())
  {
    CanonicalOrderTiles();
    TilingCodeIsGood(HuffmanCode(), CanonicalOrder(), LONGEST);
  }

  /** EOS is thirty ones. */
  lemma EosIsOnes()
    ensures HuffmanCode()[EOS] == Ones(30)
  {
    PowersOfTwo();
    assert CodewordOf(EOS) == Entry(0x3fffffff, 30);
    OnesValue(30);
    BitsOfValueOf(Ones(30));
  }

  /** The table meets what the string codec asks of its code. */
  lemma HuffmanCodeFits()
    ensures HpackCode(HuffmanCode())
  {
    HuffmanCodeIsGood();
    EosIsOnes();
  }

  /** Eight of the ten bits of `!`, seven ones and a zero, decode to the empty text. */
  lemma BrokenExclamationMark()
    ensures !AllOnes(ToBits(0xFE)) && ToBits(0xFE) < HuffmanCode()[33]
    ensures Decode(HuffmanCode(), [0xFE]) == Plain([])
  {
    HuffmanCodeFits();
    assert CodewordOf(33) == Entry(0x3f8, 10);
    assert BitsOf(0x3f8, 10) == BitsOf(0x1fc, 9) + [false];
    assert BitsOf(0x1fc, 9) == BitsOf(0xfe, 8) + [false];
    assert BitsOf(0xfe, 8)[7] == false;
    BrokenCodewordIsAccepted(HuffmanCode(), 0xFE, 33);
  }

  /** A line feed has thirty bits: parsed and printed again, it announces one octet for four. */
  lemma LineFeedDoesNotReprint()
    ensures var t := Reparsed(Text([10], true));
            && TextBytes(HuffmanCode(), t).Some?
            && ParseText(HuffmanCode(), TextBytes(HuffmanCode(), t).value) != Parsed(t, [])
  {
    HuffmanCodeFits();
    assert CodewordOf(10) == Entry(0x3ffffffc, 30);
    LongCodewordDoesNotReprint(HuffmanCode(), 10);
  }

  /** HPACKString.parse over the tree that the insertion loop builds from the table. */
  method ParseString(data: Bytes) returns (r: Parse<Text>)
    ensures r == ParseText(HuffmanCode(), data)
  {
    HuffmanCodeIsGood();
    var tree := HuffmanTree.Build(HuffmanCode());
    r := ParseHpackString(HuffmanCode(), tree, data);
  }
}
